/** The ramdisk image that ramdisk.c writes and src/impl/initrd.c reads. */
module Ramdisk {
  import opened Bytes

  const HEADER_SIZE: nat := 76 // sizeof(struct initrd_header), padding included
  const DATA: nat := 4868 // sizeof(int) + 64 headers
  const MAX_FILES: nat := 63 // argc is a char
  const MAGIC: byte := 0xBF

  datatype File = File(name: seq<byte>, content: seq<byte>)

  /** What the writer can be asked to pack. */
  ghost predicate Packable(files: seq<File>) {
    && |files| <= MAX_FILES
    && (forall i :: 0 <= i < |files| ==> |files[i].name| < 64 && 0 !in files[i].name)
    && DataAt(files, |files|) < WORD_LIMIT
  }

  /** Where the content of file i starts in the image. */
  ghost function DataAt(files: seq<File>, i: nat): (a: nat)
    requires i <= |files|
    ensures DATA <= a
  {
    if i == 0 then DATA else DataAt(files, i - 1) + |files[i - 1].content|
  }

  /** The address of header i in the image. */
  function HeaderAt(i: nat): nat {
    4 + 76 * i
  }

  /** The bytes of m from a on are those of s. */
  ghost predicate BytesAt(m: Mem, a: nat, s: seq<byte>) {
    a + |s| <= |m| && m[a..a + |s|] == s
  }

  /** The header at h of m describes a file whose content starts at `offset`. */
  ghost predicate Describes(m: Mem, h: nat, file: File, offset: nat) {
    && h + HEADER_SIZE <= |m| && m[h] == MAGIC
    && BytesAt(m, h + 1, file.name + [0])
    && WordAt(m, h + 68) == offset && WordAt(m, h + 72) == |file.content|
  }

  /** The bytes of m from `base` on are an image of the files. Header offsets count from
      `origin`: 0 in the file that was written, `base` once the kernel has relocated them. */
  ghost predicate ImageAt(m: Mem, base: nat, files: seq<File>, origin: nat) {
    && base + DataAt(files, |files|) <= |m|
    && WordAt(m, base) == |files|
    && (forall i :: 0 <= i < |files| ==> Describes(m, base + HeaderAt(i), files[i], origin + DataAt(files, i)))
    && (forall i :: 0 <= i < |files| ==> BytesAt(m, base + DataAt(files, i), files[i].content))
  }

  /** The bytes of an image: the count, then headers of 76 bytes, and the contents behind the space for
      64 of them, one after the other. */
  lemma ImageLayout(m: Mem, files: seq<File>, i: nat)
    requires Packable(files) && ImageAt(m, 0, files, 0) && i < |files|
    ensures 4868 <= |m| && WordAt(m, 0) == |files| <= 63 && m[4 + 76 * i] == 0xBF
    ensures m[5 + 76 * i..5 + 76 * i + |files[i].name| + 1] == files[i].name + [0]
    ensures var at := WordAt(m, 72 + 76 * i);
      && at + |files[i].content| <= |m| && m[at..at + |files[i].content|] == files[i].content
      && WordAt(m, 76 + 76 * i) == |files[i].content|
      && (i == 0 ==> at == 4868)
      && (i + 1 < |files| ==> WordAt(m, 72 + 76 * (i + 1)) == at + |files[i].content|)
  {
    hide WordAt, Packable, DataAt, Describes, BytesAt;
    Few(files);
    HeaderLayout(m, files, i);
    DataStep(files, i);
    if i + 1 < |files| {
      HeaderLayout(m, files, i + 1);
      DataStep(files, i + 1);
    }
  }

  lemma HeaderLayout(m: Mem, files: seq<File>, i: nat)
    requires ImageAt(m, 0, files, 0) && i < |files|
    ensures 80 + 76 * i <= |m| && m[4 + 76 * i] == 0xBF
    ensures 5 + 76 * i + |files[i].name| + 1 <= |m|
    ensures m[5 + 76 * i..5 + 76 * i + |files[i].name| + 1] == files[i].name + [0]
    ensures WordAt(m, 72 + 76 * i) == DataAt(files, i) && WordAt(m, 76 + 76 * i) == |files[i].content|
    ensures var at := DataAt(files, i);
      at + |files[i].content| <= |m| && m[at..at + |files[i].content|] == files[i].content
  {
    hide WordAt, DataAt;
    assert Describes(m, 0 + HeaderAt(i), files[i], 0 + DataAt(files, i));
    assert BytesAt(m, 0 + DataAt(files, i), files[i].content);
  }

  lemma Few(files: seq<File>)
    requires Packable(files)
    ensures |files| <= 63
  {
  }

  // ---- The writer ----

  /** strcpy of a name into a buffer. */
  method StoreName(mem: array<byte>, a: nat, name: seq<byte>)
    requires a + |name| < mem.Length
    modifies mem
    ensures BytesAt(mem[..], a, name + [0])
    ensures forall k :: 0 <= k < mem.Length && !(a <= k <= a + |name|) ==> mem[k] == old(mem[k])
  {
    var k := 0;
    while k < |name|
      invariant k <= |name|
      invariant forall j :: 0 <= j < k ==> mem[a + j] == name[j]
      invariant forall j :: 0 <= j < mem.Length && !(a <= j < a + k) ==> mem[j] == old(mem[j])
    {
      mem[a + k] := name[k];
      k := k + 1;
    }
    mem[a + k] := 0;
  }

  /** One step of the header loop of main. */
  method StoreFileHeader(headers: array<byte>, h: nat, file: File, off: nat)
    requires h + HEADER_SIZE <= headers.Length && |file.name| < 64 && off < WORD_LIMIT && |file.content| < WORD_LIMIT
    modifies headers
    ensures Describes(headers[..], h, file, off)
    ensures SameOutside(old(headers[..]), headers[..], h, h + HEADER_SIZE)
  {
    StoreName(headers, h + 1, file.name);
    ghost var m1 := headers[..];
    StoreWord(headers, h + 68, off);
    ghost var m2 := headers[..];
    StoreWord(headers, h + 72, |file.content|);
    ghost var m3 := headers[..];
    headers[h] := MAGIC;
    WordFrame(m3, headers[..], h + 72);
    WordFrame(m2, headers[..], h + 68);
    BytesFrame(m1, headers[..], h + 1, file.name + [0]);
  }

  lemma BytesFrame(m: Mem, r: Mem, a: nat, s: seq<byte>)
    requires BytesAt(m, a, s) && SameInside(m, r, a, a + |s|)
    ensures BytesAt(r, a, s)
  {
  }

  /** The n bytes of r at `to` are those of m at `from`. */
  ghost predicate Shifted(m: Mem, from: nat, r: Mem, to: nat, n: nat) {
    && from + n <= |m| && to + n <= |r|
    && forall i {:trigger r[i]} :: to <= i < to + n ==> r[i] == m[i - to + from]
  }

  lemma ShiftedWord(m: Mem, from: nat, r: Mem, to: nat, n: nat, k: nat)
    requires Shifted(m, from, r, to, n) && k + 4 <= n
    ensures WordAt(r, to + k) == WordAt(m, from + k)
  {
  }

  lemma ShiftedBytes(m: Mem, from: nat, r: Mem, to: nat, n: nat, k: nat, s: seq<byte>)
    requires Shifted(m, from, r, to, n) && k + |s| <= n && BytesAt(m, from + k, s)
    ensures BytesAt(r, to + k, s)
  {
    forall j | 0 <= j < |s| ensures r[to + k + j] == s[j] {
      assert m[from + k..from + k + |s|][j] == s[j];
    }
  }

  /** A header describes the same file wherever its bytes are. */
  lemma ShiftedHeader(m: Mem, h: nat, r: Mem, g: nat, file: File, offset: nat)
    requires Describes(m, h, file, offset) && Shifted(m, h, r, g, HEADER_SIZE) && |file.name| < 64
    ensures Describes(r, g, file, offset)
  {
    hide WordAt;
    ShiftedWord(m, h, r, g, HEADER_SIZE, 68);
    ShiftedWord(m, h, r, g, HEADER_SIZE, 72);
    ShiftedBytes(m, h, r, g, HEADER_SIZE, 1, file.name + [0]);
  }

  /** The first loop of main: fill in the headers. */
  method StoreHeaders(headers: array<byte>, files: seq<File>)
    requires Packable(files) && headers.Length == 64 * 76
    modifies headers
    ensures forall i :: 0 <= i < |files| ==> Describes(headers[..], 76 * i, files[i], DataAt(files, i))
  {
    hide Describes, Packable, WordAt, BytesAt, SameOutside, DataAt;
    DataStep(files, 0);
    var off := 76 * 64 + 4;
    var i := 0;
    while i < |files|
      invariant i <= |files| && off == DataAt(files, i)
      invariant forall j :: 0 <= j < i ==> Describes(headers[..], 76 * j, files[j], DataAt(files, j))
    {
      FileFits(files, i);
      DataStep(files, i + 1);
      ghost var m := headers[..];
      StoreFileHeader(headers, 76 * i, files[i], off);
      HeadersKept(m, headers[..], files, i);
      off := off + |files[i].content|;
      i := i + 1;
    }
  }

  lemma DataStep(files: seq<File>, i: nat)
    requires i <= |files|
    ensures DataAt(files, i) == if i == 0 then DATA else DataAt(files, i - 1) + |files[i - 1].content|
  {
  }

  lemma FileFits(files: seq<File>, i: nat)
    requires Packable(files) && i < |files|
    ensures |files| <= MAX_FILES && |files[i].name| < 64 && DataAt(files, i) < WORD_LIMIT
    ensures |files[i].content| < WORD_LIMIT
  {
    hide DataAt;
    DataGrows(files, i, |files|);
    DataGrows(files, i + 1, |files|);
    DataStep(files, i + 1);
  }

  lemma HeadersKept(m: Mem, r: Mem, files: seq<File>, i: nat)
    requires Packable(files) && i <= |files| && SameOutside(m, r, 76 * i, 76 * i + 76)
    requires forall j :: 0 <= j < i ==> Describes(m, 76 * j, files[j], DataAt(files, j))
    ensures forall j :: 0 <= j < i ==> Describes(r, 76 * j, files[j], DataAt(files, j))
  {
    hide DataAt, WordAt, BytesAt;
    forall j | 0 <= j < i ensures Describes(r, 76 * j, files[j], DataAt(files, j)) {
      HeaderKept(m, r, 76 * j, files[j], DataAt(files, j));
    }
  }

  /** A header that is not written to. */
  lemma HeaderKept(m: Mem, r: Mem, h: nat, file: File, offset: nat)
    requires Describes(m, h, file, offset) && |file.name| < 64
    requires |m| <= |r| && forall k :: h <= k < h + HEADER_SIZE && k < |m| ==> r[k] == m[k]
    ensures Describes(r, h, file, offset)
  {
    hide Describes;
    assert h + HEADER_SIZE <= |m| by { DescribesFits(m, h, file, offset); }
    ShiftedHeader(m, h, r, h, file, offset);
  }

  lemma DescribesFits(m: Mem, h: nat, file: File, offset: nat)
    requires Describes(m, h, file, offset)
    ensures h + HEADER_SIZE <= |m|
  {
  }

  /** The image without its data: the count, and the headers as they are in memory. */
  lemma CountAndHeaders(count: Mem, headers: Mem, files: seq<File>)
    requires Packable(files) && |count| == 4 && WordAt(count, 0) == |files| && |headers| == 64 * 76
    requires forall i :: 0 <= i < |files| ==> Describes(headers, 76 * i, files[i], DataAt(files, i))
    ensures |count + headers| == DATA && WordAt(count + headers, 0) == |files|
    ensures forall i :: 0 <= i < |files| ==> Describes(count + headers, HeaderAt(i), files[i], DataAt(files, i))
  {
    hide Describes, DataAt;
    WordPrefix(count, count + headers);
    forall i | 0 <= i < |files| ensures Describes(count + headers, HeaderAt(i), files[i], DataAt(files, i)) {
      ShiftedHeader(headers, 76 * i, count + headers, HeaderAt(i), files[i], DataAt(files, i));
    }
  }

  /** main of ramdisk.c, for files that can be read; `junk` is what the uninitialised headers hold. */
  method Pack(files: seq<File>, junk: seq<byte>) returns (image: Mem)
    requires Packable(files) && |junk| == 64 * 76
    ensures |image| == DataAt(files, |files|) && ImageAt(image, 0, files, 0)
  {
    hide Describes, WordAt, BytesAt, DataAt;
    var headers := new byte[64 * 76](i requires 0 <= i < |junk| => junk[i]);
    StoreHeaders(headers, files);
    var count := new byte[4];
    StoreWord(count, 0, |files|);
    CountAndHeaders(count[..], headers[..], files);
    image := count[..] + headers[..];
    DataStep(files, 0);
    var i := 0;
    while i < |files|
      invariant i <= |files| && |image| == DataAt(files, i)
      invariant WordAt(image, 0) == |files|
      invariant forall j :: 0 <= j < |files| ==> Describes(image, HeaderAt(j), files[j], DataAt(files, j))
      invariant forall j :: 0 <= j < i ==> BytesAt(image, DataAt(files, j), files[j].content)
    {
      Appended(image, image + files[i].content, files, i);
      DataStep(files, i + 1);
      image := image + files[i].content;
      i := i + 1;
    }
  }

  lemma Appended(m: Mem, r: Mem, files: seq<File>, i: nat)
    requires Packable(files) && i < |files| && |m| == DataAt(files, i) && r == m + files[i].content
    requires WordAt(m, 0) == |files|
    requires forall j :: 0 <= j < |files| ==> Describes(m, HeaderAt(j), files[j], DataAt(files, j))
    requires forall j :: 0 <= j < i ==> BytesAt(m, DataAt(files, j), files[j].content)
    ensures WordAt(r, 0) == |files|
    ensures forall j :: 0 <= j < |files| ==> Describes(r, HeaderAt(j), files[j], DataAt(files, j))
    ensures forall j :: 0 <= j < i + 1 ==> BytesAt(r, DataAt(files, j), files[j].content)
  {
    hide Describes, DataAt, BytesAt;
    assert forall k :: 0 <= k < |m| ==> r[k] == m[k];
    WordPrefix(m, r);
    forall j | 0 <= j < |files| ensures Describes(r, HeaderAt(j), files[j], DataAt(files, j)) {
      HeaderKept(m, r, HeaderAt(j), files[j], DataAt(files, j));
    }
    forall j | 0 <= j < i ensures BytesAt(r, DataAt(files, j), files[j].content) {
      BytesKept(m, r, DataAt(files, j), files[j].content);
    }
    NewBytes(m, files[i].content);
  }

  lemma WordPrefix(m: Mem, r: Mem)
    requires 4 <= |m| <= |r| && forall k :: 0 <= k < |m| ==> r[k] == m[k]
    ensures WordAt(r, 0) == WordAt(m, 0)
  {
  }

  lemma BytesKept(m: Mem, r: Mem, a: nat, s: seq<byte>)
    requires BytesAt(m, a, s) && |m| <= |r| && forall k :: a <= k < a + |s| && k < |m| ==> r[k] == m[k]
    ensures BytesAt(r, a, s)
  {
    assert r[a..a + |s|] == m[a..a + |s|];
  }

  lemma NewBytes(m: Mem, s: seq<byte>)
    ensures BytesAt(m + s, |m|, s)
  {
  }

  lemma {:induction false} DataGrows(files: seq<File>, i: nat, j: nat)
    requires i <= j <= |files|
    ensures DataAt(files, i) <= DataAt(files, j)
  {
    if i < j {
      DataGrows(files, i, j - 1);
    }
  }
}
