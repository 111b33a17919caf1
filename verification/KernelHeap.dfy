/** The heap object of src/impl/kheap.c: alloc and free as they run, over an array of bytes. */
module KernelHeaps {
  import opened Bytes
  import opened OrderedArrays
  import opened HeapModel
  import opened HeapAlloc
  import opened HeapServe
  import opened HeapGrow
  import opened HeapFree
  import opened HeapSettle

  const INDEX_BYTES: nat := 0x80000 // sizeof(type_t) * HEAP_INDEX_SIZE

  method StoreHeader(mem: array<byte>, a: nat, hole: bool, size: nat)
    requires a + HEADER <= mem.Length && size < WORD_LIMIT
    modifies mem
    ensures mem[..] == PutHeader(old(mem[..]), a, hole, size)
  {
    StoreWord(mem, a, HEAP_MAGIC);
    ghost var m := mem[..];
    mem[a + 4] := Flag(hole);
    assert mem[..] == PutByte(m, a + 4, Flag(hole));
    StoreWord(mem, a + 8, size);
  }

  method StoreFooter(mem: array<byte>, f: nat, header: nat)
    requires f + FOOTER <= mem.Length && header < WORD_LIMIT
    modifies mem
    ensures mem[..] == PutFooter(old(mem[..]), f, header)
  {
    StoreWord(mem, f, HEAP_MAGIC);
    StoreWord(mem, f + 4, header);
  }

  lemma ZeroWord(m: Mem, a: nat)
    requires a + 4 <= |m|
    ensures PutWord(m, a, 0) == m[a := 0][a + 1 := 0][a + 2 := 0][a + 3 := 0]
  {
  }

  lemma PutZero(m: Mem, lo: nat, hi: nat, a: nat)
    requires lo <= a <= hi <= a + 4 <= |m|
    ensures PutWord(ZeroFill(m, lo, hi), a, 0) == ZeroFill(m, lo, a + 4)
  {
    hide PutWord, ZeroFill, WordAt;
    ZeroWord(ZeroFill(m, lo, hi), a);
  }

  class KernelHeap {
    const mem: array<byte>
    const index: OrderedArray
    var start: nat
    var end: nat
    var max: nat

    ghost predicate Valid()
      reads this, index
    {
      index.Valid() && (mem as object) != index.slots
    }

    ghost function State(): Heap
      requires Valid()
      reads this, mem, index, index.slots
    {
      Heap(mem[..], index.Contents(), start, end, max)
    }

    /** create_heap. The start is moved to the next page boundary even when it is on one. The
        word in front of it and the last footer are whatever memory holds. */
    constructor (memory: array<byte>, capacity: nat, from: nat, upTo: nat, limit: nat)
      requires 0 < capacity && from % 0x1000 == 0 && upTo % 0x1000 == 0
      requires from + INDEX_BYTES + 0x1000 < upTo <= limit && limit - from < 0x8000_0000
      requires limit + 2 * MIN_REGION <= memory.Length <= WORD_LIMIT
      requires WordAt(memory[..], from + INDEX_BYTES + 0x1000 - FOOTER) != HEAP_MAGIC
      requires WordAt(memory[..], upTo - FOOTER) != HEAP_MAGIC
      modifies memory
      ensures Valid() && mem == memory && fresh(index) && fresh(index.slots) && index.slots.Length == capacity
      ensures start == from + INDEX_BYTES + 0x1000 && end == upTo && max == limit && State().index == [start]
      ensures Consistent(State(), map[start := Region(end - start, true)])
    {
      hide Consistent, WordAt, PutHeader, HeaderAt, BySize, SizeOf;
      var first := from + INDEX_BYTES;
      if first / 0x1000 != 0 {
        first := first - first % 0x1000 + 0x1000;
      }
      mem := memory;
      index := new OrderedArray(capacity);
      start, end, max := first, upTo, limit;
      new;
      FreshHeapSound(mem[..], start, end, max);
      StoreHeader(mem, start, true, end - start);
      index.Insert(start, BySize(mem[..]));
      assert index.Contents() == [start];
    }

    /** find_smallest_hole */
    method FindSmallestHole(size: nat, align: bool) returns (i: int)
      requires Valid() && forall x :: x in State().index ==> x + HEADER <= mem.Length
      ensures i == -1 || 0 <= i < |State().index|
      ensures (if i == -1 then |State().index| else i) == FirstFit(State().mem, State().index, size, align, 0)
    {
      var at := 0;
      while at < index.size
        invariant at <= index.size
        invariant FirstFit(mem[..], index.Contents(), size, align, 0) ==
          FirstFit(mem[..], index.Contents(), size, align, at)
      {
        var header := index.Lookup(at);
        assert header in State().index;
        var room := LoadWord(mem, header + 8);
        if align {
          var offset := 0x1000 - (header + 12) % 0x1000;
          var holeSize := Signed32(room) - offset;
          if holeSize >= Signed32(size) {
            break;
          }
        } else if room >= size {
          break;
        }
        at := at + 1;
      }
      i := if at == index.size then -1 else at;
    }

    /** expand, without the mapping of the new pages, where no length or address wraps around. */
    method Expand(newSize: nat) returns (ok: bool)
      requires Valid() && start <= end && start + newSize + 0x1000 < WORD_LIMIT
      modifies this`end
      ensures ok == (start + Rounded(newSize) <= max)
      ensures end == if ok then start + Rounded(newSize) else old(end)
    {
      var size := newSize;
      if size / 0x1000 != 0 {
        size := size - size % 0x1000 + 0x1000;
      }
      ok := start + size <= max;
      if ok {
        end := start + size;
      }
    }

    /** The search of alloc for the hole at the highest address; -1 if the index is empty. */
    method HighestHole() returns (idx: int)
      requires Valid() && 0 !in State().index
      ensures if State().index == [] then idx == -1
              else 0 <= idx < |State().index| && State().index[idx] == Top(State().index)
    {
      hide Top;
      ghost var was := State().index;
      var at, value := 0, 0;
      TopOfNone(was[..0]);
      idx := -1;
      while at < index.size
        invariant at <= index.size && value == Top(was[..at])
        invariant if at == 0 then idx == -1 else 0 <= idx < at && was[idx] == value
      {
        var tmp := index.Lookup(at);
        assert tmp in was;
        TopStep(was, at);
        if tmp > value {
          value := tmp;
          idx := at;
        }
        at := at + 1;
      }
      assert was[..at] == was;
    }

    /** The branch of alloc that finds no hole: expand, then hand the new space to the hole at
        the highest address, or make it a hole if there is none. */
    method Grow(need: nat, ghost R: Regions) returns (ok: bool)
      requires Valid() && Sound(State(), R) && MIN_REGION <= need && max + need + 0x1000 < WORD_LIMIT
      requires index.size < index.slots.Length
      modifies this`end, mem, index, index.slots
      ensures Valid()
      ensures ok == HasRoom(old(State()), need)
      ensures !ok ==> State() == old(State())
      ensures ok ==> MIN_REGION <= Growth(old(State()), need)
      ensures ok ==> State() == HeapGrow.Grow(old(State()), R, Growth(old(State()), need))
    {
      hide Sound, HeapGrow.Grow, Rounded;
      ghost var s := State();
      GrowthIsRounded(s, R, need);
      EndBelowMax(s, R);
      var oldLength, oldEnd := end - start, end;
      ok := Expand(oldLength + need);
      if !ok {
        return;
      }
      var g := end - start - oldLength;
      StoreGrowth(oldEnd, g, s, R);
    }

    /** Hand the g bytes behind the old end to the hole at the highest address, or make them a hole
        if there is none. */
    method StoreGrowth(oldEnd: nat, g: nat, ghost s: Heap, ghost R: Regions)
      requires Valid() && Sound(s, R) && MIN_REGION <= g && oldEnd == s.end && s.end + g <= s.max
      requires State() == s.(end := s.end + g) && index.size < index.slots.Length
      modifies mem, index, index.slots
      ensures Valid() && State() == HeapGrow.Grow(s, R, g)
    {
      hide Sound, WordAt, PutHeader, PutFooter, PutWord, BySize, SizeOf, Top, Inserted;
      NoZeroInIndex(s, R);
      var idx := HighestHole();
      if idx == -1 {
        NewHoleInRange(s, R, g);
        StoreTags(oldEnd, true, g, oldEnd + g - FOOTER);
        index.Insert(oldEnd, BySize(mem[..]));
      } else {
        var header := index.Lookup(idx);
        TopInRange(s, R, g);
        Stretch(header, R[header].size, g);
      }
    }

    /** Make the hole at `header` longer by g bytes. */
    method Stretch(header: nat, ghost size: nat, g: nat)
      requires header + HEADER <= mem.Length <= WORD_LIMIT && WordAt(mem[..], header + 8) == size && FOOTER <= size
      requires size + g < WORD_LIMIT && header + size + g <= mem.Length && header < WORD_LIMIT
      modifies mem
      ensures mem[..] == PutFooter(PutWord(old(mem[..]), header + 8, size + g), header + size + g - FOOTER, header)
    {
      hide WordAt, PutFooter, PutWord;
      var was := LoadWord(mem, header + 8);
      StoreWord(mem, header + 8, was + g);
      StoreFooter(mem, header + was + g - FOOTER, header);
    }

    /** Write a header at a, and a footer at f that names it. */
    method StoreTags(a: nat, hole: bool, size: nat, f: nat)
      requires a + HEADER <= mem.Length <= WORD_LIMIT && f + FOOTER <= mem.Length && size < WORD_LIMIT
      modifies mem
      ensures mem[..] == PutFooter(PutHeader(old(mem[..]), a, hole, size), f, a)
    {
      hide WordAt, PutHeader, PutFooter, HeaderAt, FooterAt;
      StoreHeader(mem, a, hole, size);
      StoreFooter(mem, f, a);
    }

    /** Write a block of `need` bytes at pos and, if `rest` is not 0, a hole behind it. */
    method StoreBlock(pos: nat, need: nat, rest: nat)
      requires MIN_REGION <= need && pos + need + HEADER <= mem.Length <= WORD_LIMIT && rest < WORD_LIMIT
      requires end + FOOTER <= mem.Length
      modifies mem
      ensures mem[..] == BlockMem(old(mem[..]), pos, need, rest, end)
    {
      hide WordAt, PutHeader, PutFooter, HeaderAt, FooterAt;
      StoreTags(pos, false, need, pos + need - FOOTER);
      if rest > 0 {
        var hole := pos + need;
        StoreHeader(mem, hole, true, rest);
        var footer := (hole + rest - FOOTER) % 0x1_0000_0000;
        if footer < end {
          StoreFooter(mem, footer, hole);
        }
      }
    }

    /** The stores of alloc for the hole of `room` bytes at h: where the block goes, the size of its
        payload, and how much is left behind it. */
    method StorePieces(h: nat, room: nat, size: nat, align: bool) returns (pos: nat, payload: nat, rest: nat)
      requires Serving(mem[..], h, room, size, align) && end + FOOTER <= mem.Length
      modifies mem
      ensures mem[..] == ServedMem(old(mem[..]), h, room, size, align, end)
      ensures pos == BlockAt(h, align) && payload + MIN_REGION == Taken(room, size)
      ensures rest == Rest(old(mem[..]), h, room, size, align)
    {
      hide WordAt, PutHeader, PutFooter, HeaderAt, FooterAt, Prefix, BlockAt, Taken, AlignOffset, BlockMem;
      ServeInRange(h, room, size, align);
      PiecesAre(h, room, size);
      var need, left := size + MIN_REGION, room;
      pos, payload := h, size;
      if room - need < MIN_REGION {
        payload := payload + room - need;
        need := room;
      }
      if align {
        var front := (0x1000 - pos % 0x1000 - 12) % 0x1_0000_0000;
        var newLocation := pos + 0x1000 - pos % 0x1000 - 12;
        StoreTags(pos, true, front, newLocation - FOOTER);
        pos := newLocation;
        var stored := LoadWord(mem, h + 8);
        left := (room - stored) % 0x1_0000_0000;
        ModTwice(room - stored, need);
      } else {
        ModTwice(room, need);
      }
      rest := (left - need) % 0x1_0000_0000;
      StoreBlock(pos, need, rest);
    }

    /** The part of alloc behind the search: serve the request from the hole at position i. */
    method Serve(i: nat, size: nat, align: bool, ghost R: Regions) returns (p: nat)
      requires Valid() && Servable(State(), R, i, size, align) && index.size < index.slots.Length
      modifies mem, index, index.slots
      ensures Valid() && State() == Served(old(State()), R, i, size, align)
      ensures p == BlockAt(old(State()).index[i], align) + HEADER
    {
      hide Sound, Fits, WordAt, BySize, Inserted, Removed, BlockAt, Rest, ServedMem, Taken, Serving;
      ServablePlan(State(), R, i, size, align);
      var h := index.Lookup(i);
      var room := LoadWord(mem, h + 8);
      if !align {
        index.Remove(i);
      }
      var pos, payload, rest := StorePieces(h, room, size, align);
      if rest > 0 {
        index.Insert(pos + HEADER + payload + FOOTER, BySize(mem[..]));
      }
      p := pos + HEADER;
    }

    /** alloc. It halts, with ok false, when the heap may not grow as far as it must; otherwise
        it serves the request from the hole that the search ends with. */
    method Alloc(size: nat, align: bool, ghost R: Regions) returns (ok: bool, p: nat, ghost grown: nat)
      requires Valid() && Sound(State(), R) && Growable(State(), R, size, align)
      requires align ==> size + MIN_REGION < 0x8000_0000
      requires index.size + 1 < index.slots.Length && 3 <= index.slots.Length
      modifies this`end, mem, index, index.slots
      ensures Valid()
      ensures var found := Prepare(old(State()), R, size, align);
        ok == found.Ready? && (ok ==>
          && grown == found.grown && Servable(found.heap, found.regions, found.at, size, align)
          && State() == Served(found.heap, found.regions, found.at, size, align)
          && p == BlockAt(found.heap.index[found.at], align) + HEADER)
      decreases max - end
    {
      hide Sound, Fits, WordAt, BySize, TopAbuts, Served, GrowRegions, Tiled, HasRoom, Growth, FirstFit, Prepare,
        HeapGrow.Grow, BlockAt;
      ghost var s := State();
      IndexInRange(s, R);
      PrepareKeepsSound(s, R, size, align);
      PrepareStep(s, R, size, align);
      var i := FindSmallestHole(size + MIN_REGION, align);
      if i == -1 {
        ok := Grow(size + MIN_REGION, R);
        if !ok {
          p, grown := 0, 0;
          return;
        }
        ok, p, grown := Alloc(size, align, GrowRegions(s, R, Growth(s, size + MIN_REGION)));
        grown := grown + 1;
      } else {
        FitsIsServable(s, R, i, size, align);
        p := Serve(i, size, align, R);
        ok, grown := true, 0;
      }
    }

    /** The scrub loop of free: each step stores four zero bytes and advances by one. */
    method Scrub(p: nat, footer: nat)
      requires p <= footer && footer + FOOTER <= mem.Length
      modifies mem
      ensures mem[..] == ZeroFill(old(mem[..]), p, if p == footer then p else footer + 3)
    {
      hide PutWord, WordAt, ZeroFill;
      var at := 0;
      assert mem[..] == ZeroFill(old(mem[..]), p, p);
      while p + at < footer
        invariant at <= footer - p
        invariant mem[..] == ZeroFill(old(mem[..]), p, if at == 0 then p else p + at + 3)
      {
        PutZero(old(mem[..]), p, if at == 0 then p else p + at + 3, p + at);
        StoreWord(mem, p + at, 0);
        at := at + 1;
      }
    }

    /** contract, without the unmapping of the pages given up. */
    method Contract(newSize: nat) returns (length: nat)
      requires newSize < end - start
      modifies this`end
      ensures length == ContractLength(newSize) && end == start + length
    {
      length := newSize;
      if length / 0x1000 % 2 == 1 {
        length := 0x1000;
        length := length + 0x1000;
      }
      if length < HEAP_MIN_SIZE {
        length := HEAP_MIN_SIZE;
      }
      end := start + length;
    }

    /** The search of free for its right neighbour in the index; the size of the index if the
        neighbour is not there. */
    method FindInIndex(x: nat) returns (i: nat)
      requires Valid()
      ensures i <= |State().index|
      ensures if x in State().index then i < |State().index| && i == IndexOf(State().index, x) else i == |State().index|
    {
      i := 0;
      while i < index.size
        invariant i <= index.size
        invariant x !in State().index[..i]
      {
        var entry := index.Lookup(i);
        if entry == x {
          break;
        }
        i := i + 1;
      }
    }

    /** The left merge of free. */
    method JoinLeft(header: nat, footer: nat) returns (joined: nat, add: bool)
      requires Valid() && FOOTER <= header && header + HEADER <= footer && footer + FOOTER <= mem.Length <= WORD_LIMIT
      requires SizeOf(mem[..], header) == footer + FOOTER - header
      requires WordAt(mem[..], header - FOOTER) == HEAP_MAGIC ==> WordAt(mem[..], header - 4) + HEADER <= mem.Length
      modifies mem
      ensures Merge(mem[..], index.Contents(), joined, footer + FOOTER, add) ==
        MergeLeft(old(mem[..]), old(index.Contents()), header, footer + FOOTER - header)
    {
      hide PutWord, WordAt;
      joined, add := header, true;
      var testFooter := header - FOOTER;
      var magic := LoadWord(mem, testFooter);
      if magic == HEAP_MAGIC {
        var target := LoadWord(mem, testFooter + 4);
        if mem[target + 4] == 1 {
          var cacheSize := LoadWord(mem, header + 8);
          joined := target;
          StoreWord(mem, footer + 4, joined);
          var size := LoadWord(mem, joined + 8);
          StoreWord(mem, joined + 8, (size + cacheSize) % 0x1_0000_0000);
          add := false;
        }
      }
    }

    /** Add to the size field of the header at `header`. */
    method Enlarge(header: nat, more: nat)
      requires header + HEADER <= mem.Length
      modifies mem
      ensures mem[..] == AddSize(old(mem[..]), header, more)
    {
      hide WordAt, PutWord;
      var size := LoadWord(mem, header + 8);
      StoreWord(mem, header + 8, (size + more) % 0x1_0000_0000);
    }

    /** The right merge of free; the assertion that the neighbour is in the index may fail. */
    method JoinRight(header: nat, footer: nat, add: bool) returns (ok: bool, tail: nat)
      requires Valid() && index.size < index.slots.Length
      requires header + HEADER <= mem.Length && footer + FOOTER + HEADER <= mem.Length
      modifies mem, index, index.slots
      ensures Valid() && index.size <= old(index.size)
      ensures var c := Merge(old(mem[..]), old(index.Contents()), header, footer + FOOTER, add);
        ok == !Stuck(c) && (ok ==> Merge(mem[..], index.Contents(), header, tail, add) == MergeRight(c))
    {
      hide WordAt, AddSize, Removed, IndexOf;
      ok, tail := true, footer + FOOTER;
      var testHeader := footer + FOOTER;
      var magic := LoadWord(mem, testHeader);
      if magic == HEAP_MAGIC && mem[testHeader + 4] != 0 {
        var more := LoadWord(mem, testHeader + 8);
        Enlarge(header, more);
        tail := testHeader + more;
        var i := FindInIndex(testHeader);
        if i == index.size {
          ok := false;
          return;
        }
        index.Remove(i);
      }
    }

    /** The start of free: locate the tags of the block, scrub it and make it a hole. */
    method ScrubBlock(header: nat, ghost R: Regions) returns (footer: nat)
      requires Valid() && Sound(State(), R) && Live(R, header)
      modifies mem
      ensures footer + FOOTER == Next(R, header)
      ensures mem[..] == Scrubbed(old(State()), R, header)
    {
      hide Sound, WordAt, PutWord, ZeroFill, Live;
      FreeInRange(State(), R, header);
      var size := LoadWord(mem, header + 8);
      footer := header + size - FOOTER;
      assert WordAt(mem[..], header) == HEAP_MAGIC && WordAt(mem[..], footer) == HEAP_MAGIC;
      Scrub(header + HEADER, footer);
      mem[header + 4] := 1;
    }

    /** free. It halts, with ok false, when an assertion fails. */
    method Free(p: nat, ghost R: Regions) returns (ok: bool)
      requires Valid() && index.size < index.slots.Length
      requires p != 0 ==> HEADER <= p && Freeable(State(), R, p - HEADER)
      modifies this`end, mem, index, index.slots
      ensures Valid()
      ensures p == 0 ==> ok && State() == old(State())
      ensures p != 0 ==> FreeResult(old(State()), R, p - HEADER, ok, State())
    {
      hide Sound, WordAt, LeftStale, MergeLeft, MergeRight, Stuck, Scrubbed, SizeOf, Settled, Settleable,
        ReachesEnd, Traced;
      ok := true;
      if p == 0 {
        return;
      }
      ghost var s := State();
      ghost var h := p - HEADER;
      LeftInRange(s, R, h);
      FreeInRange(s, R, h);
      var footer := ScrubBlock(p - HEADER, R);
      var header, add := JoinLeft(p - HEADER, footer);
      var tail;
      ok, tail := JoinRight(header, footer, add);
      if !ok {
        return;
      }
      assert Coalesced(s, R, h) == Merge(mem[..], index.Contents(), header, tail, add);
      FreeSettles(s, R, h);
      SettlesAlike(s, State(), Coalesced(s, R, h), Next(R, h));
      Settle(header, tail, add, footer + FOOTER);
    }

    /** Contract the heap and resize the hole at its end, unless nothing is left of the hole. */
    method ContractHole(header: nat) returns (left: bool)
      requires Valid() && start <= header < end <= max && start + HEAP_MIN_SIZE <= max
      requires max + 2 * MIN_REGION <= mem.Length <= WORD_LIMIT && WordAt(mem[..], header + 8) == end - header
      modifies this`end, mem
      ensures Valid() && end == ContractEnd(old(State()), header) && left == (end != header)
      ensures FOOTER <= end <= mem.Length
      ensures mem[..] == if left then ContractMem(old(mem[..]), header, end) else old(mem[..])
    {
      hide WordAt, PutFooter, PutWord;
      ContractCases(State(), header);
      var oldLength := end - start;
      var newLength := Contract(header - start);
      var room := LoadWord(mem, header + 8);
      var size := (room - (oldLength - newLength)) % 0x1_0000_0000;
      LeftOver(start, header, newLength, oldLength, room);
      left := size > 0;
      if left {
        StoreWord(mem, header + 8, size);
        StoreFooter(mem, (header + size - FOOTER) % 0x1_0000_0000, header);
      }
    }

    /** The end of free; `test` is the address behind the block that was freed. */
    method Settle(header: nat, tail: nat, add: bool, test: nat)
      requires Valid() && index.size < index.slots.Length
      requires Settleable(State(), Merge(mem[..], index.Contents(), header, tail, add))
      modifies this`end, mem, index, index.slots
      ensures Valid()
      ensures State() == Settled(old(State()), Merge(old(mem[..]), old(index.Contents()), header, tail, add), test)
    {
      hide WordAt, ContractMem, BySize, Inserted, Removed, ContractEnd;
      if tail == end {
        ContractCases(State(), header);
        var left := ContractHole(header);
        if !left {
          var i := FindInIndex(test);
          if i < index.size {
            index.Remove(i);
          }
        }
      }
      if add {
        index.Insert(header, BySize(mem[..]));
      }
    }
  }

  /** The end of free depends on the bounds of the heap and on what both merges hand on. */
  lemma SettlesAlike(s: Heap, s': Heap, c: Merge, test: nat)
    requires s'.start == s.start && s'.end == s.end && s'.max == s.max && Settleable(s, c)
    ensures Settleable(s', c) && Settled(s', c, test) == Settled(s, c, test)
  {
    hide WordAt, ContractMem, FreedIndex, Forgotten, BySize, ContractLength;
  }

  /** What is left of a hole that reaches the end, in the arithmetic of uint32_t. */
  lemma LeftOver(start: nat, header: nat, newLength: nat, oldLength: nat, room: nat)
    requires start <= header && header + room == start + oldLength < WORD_LIMIT
    requires FOOTER <= start + newLength < WORD_LIMIT
    ensures var size := (room - (oldLength - newLength)) % 0x1_0000_0000;
      && size == (start + newLength - header) % 0x1_0000_0000
      && (size == 0 <==> start + newLength == header)
      && (size > 0 ==> (header + size - FOOTER) % 0x1_0000_0000 == start + newLength - FOOTER)
  {
    assert room - (oldLength - newLength) == start + newLength - header;
  }

  lemma PiecesAre(h: nat, room: nat, size: nat)
    requires size + MIN_REGION <= room
    ensures Prefix(h, true) == (0x1000 - h % 0x1000 - 12) % 0x1_0000_0000
    ensures BlockAt(h, true) == h + 0x1000 - h % 0x1000 - 12 && BlockAt(h, false) == h
    ensures Taken(room, size) == if room - (size + MIN_REGION) < MIN_REGION then room else size + MIN_REGION
  {
  }

  lemma ModTwice(x: int, y: int)
    ensures (x % 0x1_0000_0000 - y) % 0x1_0000_0000 == (x - y) % 0x1_0000_0000
  {
  }

  lemma EndBelowMax(s: Heap, R: Regions)
    requires Sound(s, R)
    ensures s.start < s.end <= s.max
  {
  }

  /** What free reads and writes lies in memory. */
  lemma FreeInRange(s: Heap, R: Regions, h: nat)
    requires Sound(s, R) && Live(R, h)
    ensures FOOTER <= h && MIN_REGION <= R[h].size && h + R[h].size + HEADER <= |s.mem| <= WORD_LIMIT
    ensures WordAt(s.mem, h + 8) == R[h].size && WordAt(s.mem, h) == HEAP_MAGIC
    ensures WordAt(s.mem, h + R[h].size - FOOTER) == HEAP_MAGIC
  {
    hide WordAt, Tiled;
    RegionBounds(R, s.start, s.end, h);
    TagsAt(s.mem, R, h);
  }

  lemma LeftInRange(s: Heap, R: Regions, h: nat)
    requires Sound(s, R) && Live(R, h)
    ensures var m := Scrubbed(s, R, h);
      && h + R[h].size <= |m| <= WORD_LIMIT && FOOTER <= h && MIN_REGION <= R[h].size
      && SizeOf(m, h) == R[h].size
      && (WordAt(m, h - FOOTER) == HEAP_MAGIC ==> WordAt(m, h - 4) + HEADER <= |m|)
  {
    hide WordAt, Tiled, ScrubMem, RegionTags;
    RegionBounds(R, s.start, s.end, h);
    var m := Scrubbed(s, R, h);
    ScrubTags(s.mem, R, s.start, s.end, h);
    ReplaceTiles(R, s.start, s.end, h, true);
    TagsSize(m, h, Flagged(R, h)[h]);
    WordFrame(s.mem, m, s.start - FOOTER);
    if h != s.start {
      var g := LeftNeighbour(R, s.start, s.end, h);
      FooterInside(m, g, Flagged(R, h)[g]);
    }
  }

  lemma FooterInside(m: Mem, g: nat, region: Region)
    requires RegionTags(m, g, region)
    ensures WordAt(m, g + region.size - FOOTER) == HEAP_MAGIC ==> WordAt(m, g + region.size - 4) + HEADER <= |m|
  {
    hide WordAt;
  }

  lemma IndexInRange(s: Heap, R: Regions)
    requires Sound(s, R)
    ensures forall x :: x in s.index ==> x + HEADER <= |s.mem|
  {
    hide WordAt, Tagged;
    RegionsInside(s, R);
  }

  lemma NoZeroInIndex(s: Heap, R: Regions)
    requires Sound(s, R)
    ensures 0 !in s.index
  {
    hide WordAt, Tagged;
  }

  lemma TopOfNone(index: seq<nat>)
    requires index == []
    ensures Top(index) == 0
  {
  }

  lemma TopStep(index: seq<nat>, k: nat)
    requires k < |index|
    ensures Top(index[..k + 1]) == if index[k] > Top(index[..k]) then index[k] else Top(index[..k])
  {
    assert index[..k + 1][..k] == index[..k];
  }

  lemma NewHoleInRange(s: Heap, R: Regions, g: nat)
    requires Sound(s, R) && s.end + g <= s.max && MIN_REGION <= g
    ensures s.end + g <= |s.mem| <= WORD_LIMIT && g < WORD_LIMIT && s.end < WORD_LIMIT
  {
    hide WordAt, Tagged, Tiled;
  }

  lemma TopInRange(s: Heap, R: Regions, g: nat)
    requires Sound(s, R) && s.index != [] && s.end + g <= s.max && MIN_REGION <= g
    ensures var t := Top(s.index);
      && t in R && t + HEADER <= |s.mem| && WordAt(s.mem, t + 8) == R[t].size
      && t + R[t].size + g <= |s.mem| <= WORD_LIMIT && R[t].size + g < WORD_LIMIT && t < WORD_LIMIT
      && MIN_REGION <= R[t].size
  {
    hide WordAt, Tiled;
    RegionBounds(R, s.start, s.end, Top(s.index));
    TagsAt(s.mem, R, Top(s.index));
  }
}
