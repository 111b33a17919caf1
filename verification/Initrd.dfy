/** The reader of the ramdisk image: src/impl/initrd.c. */
module Initrd {
  import opened Bytes
  import opened Options
  import opened Ramdisk

  /** A file node of the root directory; the name includes its terminating zero. */
  datatype Node = Node(name: seq<byte>, inode: nat, length: nat)

  datatype Dirent = Dirent(name: seq<byte>, ino: nat)

  /** What initrd_finddir answers. */
  datatype Found = Dev | FileNode(i: nat) | Nothing

  const DEV: seq<byte> := [0x64, 0x65, 0x76, 0]

  ghost predicate CString(s: seq<byte>) {
    s != [] && s[|s| - 1] == 0 && forall k :: 0 <= k < |s| - 1 ==> s[k] != 0
  }

  ghost function NodeOf(files: seq<File>, i: nat): Node
    requires i < |files|
  {
    Node(files[i].name + [0], i, |files[i].content|)
  }

  ghost function NodesOf(files: seq<File>): seq<Node> {
    seq(|files|, i requires 0 <= i < |files| => NodeOf(files, i))
  }

  // ---- What the calls answer ----

  /** initrd_read on a file: at most `size` bytes from `offset` on. */
  function Slice(content: seq<byte>, offset: nat, size: nat): seq<byte> {
    if offset > |content| then []
    else content[offset..if offset + size > |content| then |content| else offset + size]
  }

  /** initrd_readdir; index - 1 is a uint32_t. */
  function Listed(nodes: seq<Node>, root: bool, index: nat): Option<Dirent> {
    if root && index == 0 then Some(Dirent(DEV, 0))
    else if index == 0 || index - 1 >= |nodes| then None
    else Some(Dirent(nodes[index - 1].name, nodes[index - 1].inode))
  }

  /** The first node of the name, from k on. */
  function FirstNamed(nodes: seq<Node>, name: seq<byte>, k: nat): Found
    requires k <= |nodes|
    decreases |nodes| - k
  {
    if k == |nodes| then Nothing else if name == nodes[k].name then FileNode(k) else FirstNamed(nodes, name, k + 1)
  }

  /** initrd_finddir */
  function Looked(nodes: seq<Node>, root: bool, name: seq<byte>): Found {
    if root && name == DEV then Dev else FirstNamed(nodes, name, 0)
  }

  // ---- Laws of the calls ----

  /** A read answers the bytes from the offset on: as many as were asked for and are there. */
  lemma SliceHolds(content: seq<byte>, offset: nat, size: nat)
    ensures var r := Slice(content, offset, size);
      && (|r| == size || (|r| < size && |r| == if offset < |content| then |content| - offset else 0))
      && offset + |r| <= (if offset < |content| then |content| else offset)
      && forall k :: 0 <= k < |r| ==> r[k] == content[offset + k]
  {
  }

  lemma SliceIsPart(content: seq<byte>, offset: nat, size: nat)
    requires offset <= |content|
    ensures offset + |Slice(content, offset, size)| <= |content|
    ensures Slice(content, offset, size) + content[offset + |Slice(content, offset, size)|..] == content[offset..]
    ensures 0 < size && Slice(content, offset, size) == [] ==> content[offset..] == []
  {
  }

  /** No file in front of file i has its name and, in the root, it is not called "dev". */
  ghost predicate Visible(files: seq<File>, root: bool, i: nat)
    requires i < |files|
  {
    !(root && files[i].name == DEV[..3]) && forall j :: 0 <= j < i ==> files[j].name != files[i].name
  }

  /** A file is found by its name if and only if nothing in front hides it. */
  lemma FindsByName(files: seq<File>, root: bool, i: nat)
    requires i < |files|
    ensures Looked(NodesOf(files), root, files[i].name + [0]) == FileNode(i) <==> Visible(files, root, i)
  {
    var name := files[i].name + [0];
    assert name == DEV <==> files[i].name == DEV[..3] by {
      assert DEV == DEV[..3] + [0];
      assert name[..|name| - 1] == files[i].name;
      assert DEV[..|DEV| - 1] == DEV[..3];
    }
    FirstNamedIff(NodesOf(files), name, 0, i);
    forall j | 0 <= j < i ensures NodesOf(files)[j].name == name <==> files[j].name == files[i].name {
      assert (files[j].name + [0])[..|files[j].name|] == files[j].name;
      assert name[..|files[i].name|] == files[i].name;
    }
  }

  /** Of two files of one name the second is never found, and a file called "dev" is not found in
      the root. */
  lemma FilesCanHide(name: seq<byte>, first: seq<byte>, second: seq<byte>)
    ensures Looked(NodesOf([File(name, first), File(name, second)]), false, name + [0]) == FileNode(0)
    ensures Looked(NodesOf([File(DEV[..3], first)]), true, DEV[..3] + [0]) == Dev
  {
    assert DEV[..3] + [0] == DEV;
    var files := [File(name, first), File(name, second)];
    assert NodesOf(files)[0].name == name + [0];
  }

  /** What a lookup answers, for every name: "dev" in the root before any file, the first file of the
      name, or nothing if there is none. */
  lemma LookedIff(files: seq<File>, root: bool, name: seq<byte>, i: nat)
    ensures var found, dev := Looked(NodesOf(files), root, name), root && name == [0x64, 0x65, 0x76, 0];
      && (found == Dev <==> dev)
      && (found == Nothing <==> !dev && forall j :: 0 <= j < |files| ==> files[j].name + [0] != name)
      && (found == FileNode(i) <==>
            && !dev && i < |files| && files[i].name + [0] == name
            && forall j :: 0 <= j < i ==> files[j].name + [0] != name)
  {
    var nodes := NodesOf(files);
    forall j | 0 <= j < |files| ensures nodes[j].name == files[j].name + [0] {
    }
    FirstNamedIs(nodes, name, 0);
    if i < |files| && nodes[i].name == name {
      FirstNamedIff(nodes, name, 0, i);
    }
  }

  lemma {:induction false} FirstNamedIs(nodes: seq<Node>, name: seq<byte>, k: nat)
    requires k <= |nodes|
    ensures var r := FirstNamed(nodes, name, k);
      match r
      case Dev => false
      case FileNode(i) => k <= i < |nodes| && nodes[i].name == name
      case Nothing => forall j :: k <= j < |nodes| ==> nodes[j].name != name
    decreases |nodes| - k
  {
    if k < |nodes| && name != nodes[k].name {
      FirstNamedIs(nodes, name, k + 1);
    }
  }

  /** What a directory lists at an index: the root starts with "dev", and file i is at index i + 1 of
      either directory. */
  lemma ListedIs(files: seq<File>, root: bool, index: nat)
    ensures var r := Listed(NodesOf(files), root, index);
      if index == 0 then r == if root then Some(Dirent([0x64, 0x65, 0x76, 0], 0)) else None
      else r == if index <= |files| then Some(Dirent(files[index - 1].name + [0], index - 1)) else None
  {
  }

  lemma {:induction false} FirstNamedIff(nodes: seq<Node>, name: seq<byte>, k: nat, i: nat)
    requires k <= i < |nodes| && nodes[i].name == name
    ensures FirstNamed(nodes, name, k) == FileNode(i) <==> forall j :: k <= j < i ==> nodes[j].name != name
    decreases i - k
  {
    if k < i && name != nodes[k].name {
      FirstNamedIff(nodes, name, k + 1, i);
    }
  }

  /** File i as the reader sees it in an image at `base` whose offsets count from `origin`. */
  ghost predicate Parses(m: Mem, base: nat, i: nat, origin: nat, file: File) {
    var h := base + HeaderAt(i);
    && h + HEADER_SIZE <= |m|
    && CString(file.name + [0]) && BytesAt(m, h + 1, file.name + [0])
    && origin <= WordAt(m, h + 68)
    && WordAt(m, h + 72) == |file.content|
    && BytesAt(m, base + WordAt(m, h + 68) - origin, file.content)
  }

  lemma ByteIs(m: Mem, a: nat, s: seq<byte>, k: nat)
    requires BytesAt(m, a, s) && k < |s|
    ensures m[a + k] == s[k]
  {
    assert m[a..a + |s|][k] == s[k];
  }

  lemma SameLength(m: Mem, a: nat, s: seq<byte>, t: seq<byte>)
    requires BytesAt(m, a, s) && BytesAt(m, a, t) && CString(s) && CString(t) && |s| <= |t|
    ensures |s| == |t|
  {
    ByteIs(m, a, s, |s| - 1);
    ByteIs(m, a, t, |s| - 1);
  }

  lemma SameCString(m: Mem, a: nat, s: seq<byte>, t: seq<byte>)
    requires BytesAt(m, a, s) && BytesAt(m, a, t) && CString(s) && CString(t)
    ensures s == t
  {
    if |s| <= |t| {
      SameLength(m, a, s, t);
    } else {
      SameLength(m, a, t, s);
    }
  }

  lemma NameIsCString(name: seq<byte>)
    requires 0 !in name
    ensures CString(name + [0])
  {
  }

  lemma SameName(s: seq<byte>, t: seq<byte>)
    requires s + [0] == t + [0]
    ensures s == t
  {
    assert (s + [0])[..|s|] == s && (t + [0])[..|t|] == t;
  }

  /** An image has one reading: what is parsed from it are the files that were packed. */
  lemma ImageReadsBack(m: Mem, base: nat, files: seq<File>, origin: nat, i: nat, file: File)
    requires Packable(files) && ImageAt(m, base, files, origin) && i < |files|
    ensures Parses(m, base, i, origin, file) <==> file == files[i]
  {
    hide WordAt, CString, Packable, DataAt;
    assert Describes(m, base + HeaderAt(i), files[i], origin + DataAt(files, i));
    assert BytesAt(m, base + DataAt(files, i), files[i].content);
    assert CString(files[i].name + [0]) by { PackedName(files, i); }
    if Parses(m, base, i, origin, file) {
      SameCString(m, base + HeaderAt(i) + 1, file.name + [0], files[i].name + [0]);
      SameName(file.name, files[i].name);
    }
  }

  lemma FewFiles(files: seq<File>)
    requires Packable(files)
    ensures |NodesOf(files)| == |files| <= MAX_FILES
  {
  }

  lemma PackedName(files: seq<File>, i: nat)
    requires Packable(files) && i < |files|
    ensures CString(files[i].name + [0]) && |files[i].name| < 64
  {
    NameIsCString(files[i].name);
  }

  lemma NoZeroInName(files: seq<File>, i: nat)
    requires Packable(files) && i < |files|
    ensures 0 !in files[i].name
  {
  }

  lemma ShiftedPart(m: Mem, r: Mem, base: nat, n: nat, from: nat, k: nat)
    requires Shifted(m, 0, r, base, n) && from + k <= n
    ensures Shifted(m, from, r, base + from, k)
  {
  }

  lemma LoadedHeader(image: Mem, m: Mem, base: nat, files: seq<File>, i: nat)
    requires Packable(files) && ImageAt(image, 0, files, 0) && Shifted(image, 0, m, base, |image|) && i < |files|
    ensures Describes(m, base + HeaderAt(i), files[i], DataAt(files, i))
    ensures BytesAt(m, base + DataAt(files, i), files[i].content)
  {
    hide Packable, WordAt, DataAt, BytesAt, HeaderAt, Shifted;
    PackedName(files, i);
    assert Describes(image, 0 + HeaderAt(i), files[i], 0 + DataAt(files, i));
    assert BytesAt(image, 0 + DataAt(files, i), files[i].content);
    BytesFit(image, DataAt(files, i), files[i].content);
    ShiftedPart(image, m, base, |image|, HeaderAt(i), HEADER_SIZE);
    ShiftedHeader(image, HeaderAt(i), m, base + HeaderAt(i), files[i], DataAt(files, i));
    ShiftedBytes(image, 0, m, base, |image|, DataAt(files, i), files[i].content);
  }

  lemma BytesFit(m: Mem, a: nat, s: seq<byte>)
    requires BytesAt(m, a, s)
    ensures a + |s| <= |m|
  {
  }

  /** A packed image, loaded anywhere in memory, is what initialise_initrd expects there. */
  lemma ImageLoads(image: Mem, m: Mem, base: nat, files: seq<File>)
    requires Packable(files) && ImageAt(image, 0, files, 0) && |image| == DataAt(files, |files|)
    requires Shifted(image, 0, m, base, |image|)
    ensures ImageAt(m, base, files, 0)
  {
    hide Packable, WordAt, BytesAt, Describes, HeaderAt;
    assert DATA <= |image| && base + |image| <= |m| by { hide DataAt; }
    assert WordAt(m, base) == |files| by {
      hide DataAt;
      ShiftedWord(image, 0, m, base, |image|, 0);
    }
    forall i | 0 <= i < |files| ensures Describes(m, base + HeaderAt(i), files[i], 0 + DataAt(files, i)) {
      LoadedHeader(image, m, base, files, i);
    }
    forall i | 0 <= i < |files| ensures BytesAt(m, base + DataAt(files, i), files[i].content) {
      LoadedHeader(image, m, base, files, i);
    }
  }

  // ---- The code ----

  /** strcmp, of two strings that end with their only zero. */
  method StrCmp(x: seq<byte>, y: seq<byte>) returns (r: int)
    requires CString(x) && CString(y)
    ensures r == 0 <==> x == y
    ensures x != y ==> exists k: nat :: k < |x| && k < |y| && x[..k] == y[..k] && x[k] as int - y[k] as int == r != 0
  {
    var k := 0;
    while x[k] != 0
      invariant k < |x| && k < |y| && x[..k] == y[..k]
      decreases |x| - k
    {
      if x[k] != y[k] {
        break;
      }
      k := k + 1;
    }
    r := x[k] as int - y[k] as int;
    if r == 0 {
      assert x[..k + 1] == y[..k + 1];
    }
  }

  class Filesystem {
    const mem: array<byte>
    const location: nat
    var nodes: seq<Node>
    var dirent: Dirent

    /** The image in memory is relocated, and the nodes describe its files. */
    ghost predicate Mounted(files: seq<File>)
      reads this, mem
    {
      && Packable(files) && ImageAt(mem[..], location, files, location)
      && nodes == NodesOf(files)
    }

    /** initialise_initrd: relocate the offsets and build the nodes. */
    constructor (memory: array<byte>, location: nat, ghost files: seq<File>)
      requires Packable(files) && ImageAt(memory[..], location, files, 0)
      requires location + DataAt(files, |files|) < WORD_LIMIT
      modifies memory
      ensures mem == memory && this.location == location && Mounted(files) && |nodes| == |files|
      ensures forall i :: 0 <= i < |files| ==> nodes[i] == Node(files[i].name + [0], i, |files[i].content|)
    {
      hide Describes, WordAt, BytesAt, PutWord, DataAt, ImageAt;
      mem := memory;
      this.location := location;
      nodes := [];
      dirent := Dirent([], 0);
      new;
      NotYetRelocated(mem[..], location, files);
      var n := LoadWord(mem, location);
      var i := 0;
      while i < n
        invariant i <= n == |files| && |nodes| == i
        invariant Relocated(mem[..], location, files, i)
        invariant forall j :: 0 <= j < i ==> nodes[j] == NodeOf(files, j)
      {
        var node := Relocate(i, files);
        nodes := nodes + [node];
        i := i + 1;
      }
      AllRelocated(mem[..], location, files);
    }

    /** One step of the loop of initialise_initrd: the offset in header i, and the node of file i. */
    method Relocate(i: nat, ghost files: seq<File>) returns (node: Node)
      requires Packable(files) && location + DataAt(files, |files|) < WORD_LIMIT
      requires Relocated(mem[..], location, files, i) && i < |files|
      modifies mem
      ensures Relocated(mem[..], location, files, i + 1) && node == NodeOf(files, i)
    {
      hide Describes, WordAt, BytesAt, PutWord, DataAt, ImageAt, Relocated, Packable;
      ghost var m := mem[..];
      HeaderInRange(m, location, files, i);
      var h := location + 4 + 76 * i;
      var offset := LoadWord(mem, h + 68);
      StoreWord(mem, h + 68, offset + location);
      RelocateStep(m, mem[..], location, files, i);
      RelocatedHeader(mem[..], h, files[i], location + DataAt(files, i));
      NoZeroInName(files, i);
      var name := LoadName(h + 1, files[i].name);
      var length := LoadWord(mem, h + 72);
      node := Node(name, i, length);
    }

    /** strcpy of a name out of memory. */
    method LoadName(a: nat, ghost name: seq<byte>) returns (s: seq<byte>)
      requires BytesAt(mem[..], a, name + [0]) && 0 !in name
      ensures s == name + [0]
    {
      ghost var t := name + [0];
      assert forall k :: 0 <= k < |t| ==> mem[..][a..a + |t|][k] == t[k];
      s := [];
      var k := 0;
      while mem[a + k] != 0
        invariant k <= |name| && s == name[..k]
        invariant forall j :: 0 <= j < |t| ==> mem[a + j] == t[j]
        decreases |name| - k
      {
        s := s + [mem[a + k]];
        k := k + 1;
      }
      s := s + [0];
    }

    /** initrd_read */
    method Read(inode: nat, offset: nat, size: nat, buffer: array<byte>, ghost files: seq<File>) returns (n: nat)
      requires Mounted(files) && inode < |files| && buffer != mem
      requires offset + size < WORD_LIMIT && size <= buffer.Length
      modifies buffer
      ensures Mounted(files)
      ensures n <= size && n == |Slice(files[inode].content, offset, size)|
      ensures buffer[..] == Slice(files[inode].content, offset, size) + old(buffer[..])[n..]
    {
      hide WordAt, DataAt, ImageAt;
      HeaderInRange2(mem[..], location, files, inode);
      ghost var content := files[inode].content;
      var h := location + 4 + 76 * inode;
      var start := LoadWord(mem, h + 68);
      var length := LoadWord(mem, h + 72);
      if offset > length {
        return 0;
      }
      n := size;
      if (offset + size) % 0x1_0000_0000 > length {
        n := length - offset;
      }
      CopyOut(start + offset, n, buffer);
      SliceOfBytes(mem[..], start, content, offset, size, n);
    }

    /** memcpy out of memory into a buffer of the caller. */
    method CopyOut(from: nat, n: nat, buffer: array<byte>)
      requires buffer != mem && from + n <= mem.Length && n <= buffer.Length
      modifies buffer
      ensures buffer[..] == mem[from..from + n] + old(buffer[..])[n..]
    {
      var k := 0;
      while k < n
        invariant k <= n
        invariant forall j :: 0 <= j < buffer.Length ==> buffer[j] == if j < k then mem[from + j] else old(buffer[j])
      {
        buffer[k] := mem[from + k];
        k := k + 1;
      }
    }

    /** initrd_readdir: the shared entry is overwritten and answered, or nothing is. */
    method ReadDir(root: bool, index: nat, ghost files: seq<File>) returns (found: bool)
      requires Mounted(files) && index < WORD_LIMIT
      modifies this`dirent
      ensures Mounted(files)
      ensures found == Listed(nodes, root, index).Some? && (found ==> dirent == Listed(nodes, root, index).value)
      ensures !found ==> dirent == old(dirent)
    {
      hide ImageAt, Packable;
      FewFiles(files);
      if root && index == 0 {
        dirent := Dirent(DEV, 0);
        return true;
      }
      if (index - 1) % 0x1_0000_0000 >= |nodes| {
        return false;
      }
      dirent := Dirent(nodes[index - 1].name, nodes[index - 1].inode);
      return true;
    }

    /** initrd_finddir */
    method FindDir(root: bool, name: seq<byte>, ghost files: seq<File>) returns (found: Found)
      requires Mounted(files) && CString(name)
      ensures found == Looked(nodes, root, name)
    {
      hide ImageAt, Packable;
      if root {
        var r := StrCmp(name, DEV);
        if r == 0 {
          return Dev;
        }
      }
      var i := 0;
      while i < |nodes|
        invariant i <= |nodes| && FirstNamed(nodes, name, 0) == FirstNamed(nodes, name, i)
      {
        PackedName(files, i);
        var r := StrCmp(name, nodes[i].name);
        if r == 0 {
          return FileNode(i);
        }
        i := i + 1;
      }
      return Nothing;
    }
  }

  /** A slice of a content as it lies in memory. */
  lemma SliceOfBytes(m: Mem, a: nat, content: seq<byte>, offset: nat, size: nat, n: nat)
    requires BytesAt(m, a, content) && offset <= |content|
    requires n == if offset + size > |content| then |content| - offset else size
    ensures a + offset + n <= |m| && m[a + offset..a + offset + n] == Slice(content, offset, size)
  {
    var there := m[a + offset..a + offset + n];
    forall k | 0 <= k < n ensures there[k] == Slice(content, offset, size)[k] {
      assert m[a..a + |content|][offset + k] == content[offset + k];
    }
  }

  /** The offset in header i when the first n headers are relocated. */
  ghost function OffsetOf(files: seq<File>, i: nat, n: nat, base: nat): nat
    requires i <= |files|
  {
    (if i < n then base else 0) + DataAt(files, i)
  }

  /** The first n headers are relocated, the others are not yet. */
  ghost predicate Relocated(m: Mem, base: nat, files: seq<File>, n: nat) {
    && base + DataAt(files, |files|) <= |m|
    && WordAt(m, base) == |files| && n <= |files|
    && (forall i :: 0 <= i < |files| ==>
          Describes(m, base + HeaderAt(i), files[i], OffsetOf(files, i, n, base)))
    && (forall i :: 0 <= i < |files| ==> BytesAt(m, base + DataAt(files, i), files[i].content))
  }

  lemma NotYetRelocated(m: Mem, base: nat, files: seq<File>)
    requires ImageAt(m, base, files, 0)
    ensures Relocated(m, base, files, 0) && base + DATA <= |m|
  {
    hide Describes, WordAt, BytesAt, DataAt;
  }

  lemma RelocatedHeader(m: Mem, h: nat, file: File, offset: nat)
    requires Describes(m, h, file, offset)
    ensures h + HEADER_SIZE <= |m| && BytesAt(m, h + 1, file.name + [0]) && WordAt(m, h + 72) == |file.content|
  {
  }

  lemma AllRelocated(m: Mem, base: nat, files: seq<File>)
    requires Relocated(m, base, files, |files|)
    ensures ImageAt(m, base, files, base)
  {
    hide Describes, WordAt, BytesAt, DataAt;
  }

  lemma HeaderInRange(m: Mem, base: nat, files: seq<File>, i: nat)
    requires Packable(files) && Relocated(m, base, files, i) && i < |files|
    ensures base + HeaderAt(i) + HEADER_SIZE <= |m|
    ensures WordAt(m, base + HeaderAt(i) + 68) == DataAt(files, i) <= DataAt(files, |files|)
    ensures WordAt(m, base + HeaderAt(i) + 72) == |files[i].content|
  {
    hide WordAt, BytesAt, DataAt;
    DataGrows(files, i, |files|);
    assert Describes(m, base + HeaderAt(i), files[i], DataAt(files, i));
  }

  lemma HeaderInRange2(m: Mem, base: nat, files: seq<File>, i: nat)
    requires Packable(files) && ImageAt(m, base, files, base) && i < |files|
    ensures base + HeaderAt(i) + HEADER_SIZE <= |m| && WordAt(m, base + HeaderAt(i) + 68) == base + DataAt(files, i)
    ensures WordAt(m, base + HeaderAt(i) + 72) == |files[i].content|
    ensures BytesAt(m, base + DataAt(files, i), files[i].content)
  {
    hide WordAt, BytesAt, DataAt;
    assert Describes(m, base + HeaderAt(i), files[i], base + DataAt(files, i));
  }

  lemma RelocateStep(m: Mem, r: Mem, base: nat, files: seq<File>, i: nat)
    requires Packable(files) && Relocated(m, base, files, i) && i < |files|
    requires base + DataAt(files, i) < WORD_LIMIT && base + HeaderAt(i) + HEADER_SIZE <= |m|
    requires r == PutWord(m, base + HeaderAt(i) + 68, base + DataAt(files, i))
    ensures Relocated(r, base, files, i + 1)
    ensures Describes(r, base + HeaderAt(i), files[i], base + DataAt(files, i))
  {
    hide Describes, WordAt, BytesAt, PutWord, DataAt, HeaderAt, Packable, OffsetOf;
    FewFiles(files);
    HeaderPlaces(i);
    WordFrame(m, r, base);
    forall j | 0 <= j < |files| ensures |files[j].name| < 64 {
      PackedName(files, j);
    }
    Offsets(files, i, i, base);
    Reheaded(m, r, base + HeaderAt(i), files[i], DataAt(files, i), base + DataAt(files, i));
    HeadersRelocate(m, r, base, files, i);
    DataRelocates(m, r, base, files, i);
  }

  lemma Offsets(files: seq<File>, j: nat, i: nat, base: nat)
    requires j < |files|
    ensures j == i ==> OffsetOf(files, j, i, base) == DataAt(files, i)
    ensures j == i ==> OffsetOf(files, j, i + 1, base) == base + DataAt(files, i)
    ensures j != i ==> OffsetOf(files, j, i + 1, base) == OffsetOf(files, j, i, base)
  {
  }

  lemma HeadersRelocate(m: Mem, r: Mem, base: nat, files: seq<File>, i: nat)
    requires i < |files| && (forall j :: 0 <= j < |files| ==> |files[j].name| < 64)
    requires forall j :: 0 <= j < |files| ==> Describes(m, base + HeaderAt(j), files[j], OffsetOf(files, j, i, base))
    requires Describes(r, base + HeaderAt(i), files[i], OffsetOf(files, i, i + 1, base))
    requires SameOutside(m, r, base + HeaderAt(i) + 68, base + HeaderAt(i) + 72)
    ensures forall j :: 0 <= j < |files| ==> Describes(r, base + HeaderAt(j), files[j], OffsetOf(files, j, i + 1, base))
  {
    hide Describes, DataAt, HeaderAt, OffsetOf, SameOutside;
    forall j | 0 <= j < |files| ensures Describes(r, base + HeaderAt(j), files[j], OffsetOf(files, j, i + 1, base)) {
      if j != i {
        Offsets(files, j, i, base);
        OtherHeader(m, r, base, files[j], i, j, OffsetOf(files, j, i, base));
      }
    }
  }

  lemma DataRelocates(m: Mem, r: Mem, base: nat, files: seq<File>, i: nat)
    requires i < |files| <= MAX_FILES && SameOutside(m, r, base + HeaderAt(i) + 68, base + HeaderAt(i) + 72)
    requires forall j :: 0 <= j < |files| ==> BytesAt(m, base + DataAt(files, j), files[j].content)
    ensures forall j :: 0 <= j < |files| ==> BytesAt(r, base + DataAt(files, j), files[j].content)
  {
    hide BytesAt, DataAt, HeaderAt, SameOutside;
    forall j | 0 <= j < |files| ensures BytesAt(r, base + DataAt(files, j), files[j].content) {
      DataUntouched(m, r, base, DataAt(files, j), files[j].content, i);
    }
  }

  lemma OtherHeader(m: Mem, r: Mem, base: nat, file: File, i: nat, j: nat, offset: nat)
    requires i != j && |file.name| < 64 && Describes(m, base + HeaderAt(j), file, offset)
    requires SameOutside(m, r, base + HeaderAt(i) + 68, base + HeaderAt(i) + 72)
    ensures Describes(r, base + HeaderAt(j), file, offset)
  {
    hide Describes, HeaderAt;
    HeadersApart(i, j);
    HeaderKept(m, r, base + HeaderAt(j), file, offset);
  }

  lemma DataUntouched(m: Mem, r: Mem, base: nat, at: nat, content: seq<byte>, i: nat)
    requires DATA <= at && i < 64 && BytesAt(m, base + at, content)
    requires SameOutside(m, r, base + HeaderAt(i) + 68, base + HeaderAt(i) + 72)
    ensures BytesAt(r, base + at, content)
  {
    hide BytesAt, HeaderAt;
    HeaderPlaces(i);
    BytesKept(m, r, base + at, content);
  }

  lemma HeaderPlaces(i: nat)
    ensures 4 <= HeaderAt(i) && (i < 64 ==> HeaderAt(i) + HEADER_SIZE <= DATA)
  {
  }

  lemma HeadersApart(i: nat, j: nat)
    requires i != j
    ensures HeaderAt(i) + HEADER_SIZE <= HeaderAt(j) || HeaderAt(j) + HEADER_SIZE <= HeaderAt(i)
  {
  }

  /** A header whose offset has been overwritten. */
  lemma Reheaded(m: Mem, r: Mem, h: nat, file: File, offset: nat, newOffset: nat)
    requires Describes(m, h, file, offset) && |file.name| < 64 && newOffset < WORD_LIMIT
    requires h + HEADER_SIZE <= |m| && r == PutWord(m, h + 68, newOffset)
    ensures Describes(r, h, file, newOffset)
  {
    hide WordAt, PutWord;
    WordFrame(m, r, h + 72);
    BytesKept(m, r, h + 1, file.name + [0]);
  }

  // ---- The round trip ----

  /** What the root directory lists: "dev", and then every file once, in order. */
  ghost function Listing(files: seq<File>): seq<Dirent> {
    [Dirent(DEV, 0)] + seq(|files|, i requires 0 <= i < |files| => Dirent(files[i].name + [0], i))
  }

  /** Calls of initrd_readdir with the indices from 0 on, until one answers NULL. */
  method ListDirectory(fs: Filesystem, ghost files: seq<File>) returns (entries: seq<Dirent>)
    requires fs.Mounted(files)
    modifies fs`dirent
    ensures fs.Mounted(files) && entries == Listing(files)
  {
    hide ImageAt, Packable;
    FewFiles(files);
    entries := [];
    var index := 0;
    while true
      invariant fs.Mounted(files) && index == |entries| <= |files| + 1 && entries == Listing(files)[..index]
      decreases |files| + 1 - index
    {
      var found := fs.ReadDir(true, index, files);
      if !found {
        break;
      }
      entries := entries + [fs.dirent];
      index := index + 1;
    }
  }

  /** Calls of initrd_read for `chunk` bytes each, one behind the other, until one answers 0. */
  method ReadFile(fs: Filesystem, inode: nat, chunk: nat, ghost files: seq<File>) returns (content: seq<byte>)
    requires fs.Mounted(files) && inode < |files| && 0 < chunk && |files[inode].content| + chunk < WORD_LIMIT
    ensures content == files[inode].content
  {
    hide ImageAt, Packable, Slice;
    ghost var all := files[inode].content;
    var buffer := new byte[chunk](_ => 0);
    content := [];
    while true
      invariant fs.Mounted(files) && |content| <= |all| && content == all[..|content|]
      decreases |all| - |content|
    {
      SliceIsPart(all, |content|, chunk);
      var n := fs.Read(inode, |content|, chunk, buffer, files);
      if n == 0 {
        break;
      }
      ghost var part := Slice(all, |content|, chunk);
      assert buffer[..n] == part;
      Prefixes(all, content, part);
      content := content + buffer[..n];
    }
  }

  lemma Prefixes(all: seq<byte>, content: seq<byte>, part: seq<byte>)
    requires |content| <= |all| && content == all[..|content|] && |content| + |part| <= |all|
    requires part + all[|content| + |part|..] == all[|content|..]
    ensures content + part == all[..|content| + |part|]
  {
    assert all == content + all[|content|..];
    assert all == (content + part) + all[|content| + |part|..];
  }

  /** The image as the boot loader puts it into memory. */
  method Load(image: Mem, memory: array<byte>, location: nat)
    requires location + |image| <= memory.Length
    modifies memory
    ensures Shifted(image, 0, memory[..], location, |image|)
  {
    var k := 0;
    while k < |image|
      invariant k <= |image|
      invariant forall i :: location <= i < location + k ==> memory[i] == image[i - location]
    {
      memory[location + k] := image[k];
      k := k + 1;
    }
  }

  /** The round trip: the files are packed, the image is loaded anywhere in memory and mounted, the
      root directory is listed, and every file listed is looked up by its name and read in chunks of
      any positive size by its inode number. The listing is "dev" and every file once, every content
      is the one that was packed, and the lookup answers the file exactly when nothing hides it. */
  method RoundTrip(files: seq<File>, junk: seq<byte>, memory: array<byte>, location: nat, chunk: nat)
    returns (entries: seq<Dirent>, found: seq<Found>, contents: seq<seq<byte>>)
    requires Packable(files) && |junk| == 64 * 76 && location + DataAt(files, |files|) < WORD_LIMIT
    requires location + DataAt(files, |files|) <= memory.Length
    requires 0 < chunk && forall i :: 0 <= i < |files| ==> |files[i].content| + chunk < WORD_LIMIT
    modifies memory
    ensures entries == Listing(files) && |found| == |contents| == |files|
    ensures forall i :: 0 <= i < |files| ==> contents[i] == files[i].content
    ensures forall i :: 0 <= i < |files| ==> (found[i] == FileNode(i) <==> Visible(files, true, i))
  {
    hide ImageAt, Packable, DataAt, Visible, Looked;
    var image := Pack(files, junk);
    Load(image, memory, location);
    ImageLoads(image, memory[..], location, files);
    var fs := new Filesystem(memory, location, files);
    entries := ListDirectory(fs, files);
    found, contents := [], [];
    var k := 1;
    while k < |entries|
      invariant fs.Mounted(files) && 1 <= k <= |entries| && |found| == |contents| == k - 1
      invariant forall i :: 0 <= i < k - 1 ==> contents[i] == files[i].content
      invariant forall i :: 0 <= i < k - 1 ==> (found[i] == FileNode(i) <==> Visible(files, true, i))
    {
      PackedName(files, k - 1);
      FindsByName(files, true, k - 1);
      var node := fs.FindDir(true, entries[k].name, files);
      var content := ReadFile(fs, entries[k].ino, chunk, files);
      found, contents := found + [node], contents + [content];
      k := k + 1;
    }
  }
}
