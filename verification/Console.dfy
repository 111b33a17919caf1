/** The console of src/impl/vga.c: flat video memory that shows the end of a log of lines. */
module Consoles {
  import opened Bytes

  const ROWS: nat := 25 // VGA_LINES
  const LAST: nat := 24
  const COLUMNS: nat := 80 // VGA_COLUMNS_IN_LINE
  const SCREEN: nat := 4000 // VGA_SCREENSIZE
  const COLOR: byte := 0x07 // VGA_DEFAULT_COLOR
  const BLANK: byte := 0x20
  const NEWLINE: byte := 10

  /** What has been printed: lines, of which the last is still open. */
  type Log = seq<seq<byte>>

  /** The log after one more character. */
  function Fed(log: Log, ch: byte): (r: Log)
    requires log != []
    ensures r != []
  {
    if ch == NEWLINE then log + [[]] else log[|log| - 1 := log[|log| - 1] + [ch]]
  }

  function FedAll(log: Log, text: seq<byte>): (r: Log)
    requires log != []
    ensures r != []
  {
    if text == [] then log else Fed(FedAll(log, text[..|text| - 1]), text[|text| - 1])
  }

  /** No line is longer than the screen is wide. */
  ghost predicate Narrow(log: Log) {
    forall i :: 0 <= i < |log| ==> |log[i]| <= COLUMNS
  }

  /** The first line of the log that is on the screen. */
  function FirstShown(log: Log): nat {
    if |log| <= ROWS then 0 else |log| - ROWS
  }

  /** What the log has in a row and column of the screen. */
  function Glyph(log: Log, row: nat, column: nat): byte {
    var line := FirstShown(log) + row;
    if line < |log| && column < |log[line]| then log[line][column] else BLANK
  }

  /** The character and the attribute in a row and column of video memory. */
  function CharAt(m: Mem, row: nat, column: nat): byte
    requires |m| == SCREEN && row < ROWS && column < COLUMNS
  {
    m[row * 160 + column * 2]
  }

  function AttributeAt(m: Mem, row: nat, column: nat): byte
    requires |m| == SCREEN && row < ROWS && column < COLUMNS
  {
    m[row * 160 + column * 2 + 1]
  }

  predicate Blanked(m: Mem, row: nat, column: nat)
    requires |m| == SCREEN && row < ROWS && column < COLUMNS
  {
    CharAt(m, row, column) == BLANK && AttributeAt(m, row, column) == COLOR
  }

  /** Video memory is the end of the log, padded with blanks. */
  ghost predicate Shows(m: Mem, log: Log) {
    && |m| == SCREEN
    && (forall r: nat, c: nat :: r < ROWS && c < COLUMNS ==> CharAt(m, r, c) == Glyph(log, r, c))
    && (forall r: nat, c: nat :: r < ROWS && c < COLUMNS ==> AttributeAt(m, r, c) == COLOR)
  }

  function CursorRow(log: Log): nat
    requires log != []
  {
    if |log| < ROWS then |log| - 1 else ROWS - 1
  }

  /** A screen that moves up by a row and ends with a blank one shows the log with a new line. */
  lemma ScrolledShows(m: Mem, m': Mem, log: Log)
    requires log != [] && Shows(m, log) && |log| >= ROWS && |m'| == SCREEN
    requires forall i :: 0 <= i < SCREEN - 160 ==> m'[i] == m[i + 160]
    requires forall c: nat :: c < COLUMNS ==> Blanked(m', LAST, c)
    ensures Shows(m', Fed(log, NEWLINE))
  {
    var log' := Fed(log, NEWLINE);
    forall r: nat, c: nat | r < ROWS && c < COLUMNS
      ensures CharAt(m', r, c) == Glyph(log', r, c) && AttributeAt(m', r, c) == COLOR
    {
      if r < ROWS - 1 {
        assert CharAt(m', r, c) == CharAt(m, r + 1, c);
        assert AttributeAt(m', r, c) == AttributeAt(m, r + 1, c);
        assert Glyph(log', r, c) == Glyph(log, r + 1, c);
      } else {
        assert Blanked(m', LAST, c);
      }
    }
  }

  /** A screen that has room for it shows the log with a new line as it is. */
  lemma NewLineShows(m: Mem, log: Log)
    requires log != [] && Shows(m, log) && |log| < ROWS
    ensures Shows(m, Fed(log, NEWLINE))
  {
    var log' := Fed(log, NEWLINE);
    forall r: nat, c: nat | r < ROWS && c < COLUMNS ensures CharAt(m, r, c) == Glyph(log', r, c) {
      assert Glyph(log', r, c) == Glyph(log, r, c);
    }
  }

  /** m with a character and the default attribute stored at i. */
  function Put(m: Mem, i: nat, ch: byte): Mem
    requires i + 1 < |m|
  {
    PutByte(PutByte(m, i, ch), i + 1, COLOR)
  }

  /** A character stored at the cursor continues the last line. */
  lemma CharShows(m: Mem, log: Log, ch: byte)
    requires log != [] && Shows(m, log) && |log[|log| - 1]| < COLUMNS && ch != NEWLINE
    ensures var i := CursorRow(log) * 160 + |log[|log| - 1]| * 2;
      i + 1 < SCREEN && Shows(Put(m, i, ch), Fed(log, ch))
  {
    var row, column, log' := CursorRow(log), |log[|log| - 1]|, Fed(log, ch);
    var i := row * 160 + column * 2;
    var m' := Put(m, i, ch);
    forall r: nat, c: nat | r < ROWS && c < COLUMNS
      ensures CharAt(m', r, c) == Glyph(log', r, c) && AttributeAt(m', r, c) == COLOR
    {
      assert CharAt(m, r, c) == Glyph(log, r, c) && AttributeAt(m, r, c) == COLOR;
      assert FirstShown(log') + row == |log| - 1;
      if r == row && c == column {
        assert Glyph(log', r, c) == ch;
      } else {
        assert CharAt(m', r, c) == CharAt(m, r, c);
        assert Glyph(log', r, c) == Glyph(log, r, c);
      }
    }
  }

  // ---- What a log says ----

  /** The text that the lines of a log come from. */
  function Joined(log: Log): seq<byte>
    requires log != []
  {
    if |log| == 1 then log[0] else Joined(log[..|log| - 1]) + [NEWLINE] + log[|log| - 1]
  }

  /** The log of a text is that text, cut at its newlines and nowhere else. */
  lemma {:induction false} LogIsText(text: seq<byte>)
    ensures Joined(FedAll([[]], text)) == text
    ensures forall line :: line in FedAll([[]], text) ==> NEWLINE !in line
  {
    if text != [] {
      var shorter, ch := text[..|text| - 1], text[|text| - 1];
      LogIsText(shorter);
      var log := FedAll([[]], shorter);
      FedText(log, ch);
      assert shorter + [ch] == text;
      assert log[|log| - 1] in log;
    }
  }

  lemma FedText(log: Log, ch: byte)
    requires log != []
    ensures Joined(Fed(log, ch)) == Joined(log) + [ch]
  {
    var r := Fed(log, ch);
    if ch == NEWLINE {
      assert r[..|r| - 1] == log;
    } else {
      assert r[..|r| - 1] == log[..|log| - 1];
    }
  }

  class Console {
    const vidmem: array<byte>
    var cursorX: nat
    var cursorY: nat
    ghost var log: Log

    /** Video memory shows the log, and the cursor is at the end of its last line. */
    ghost predicate Valid()
      reads this, vidmem
    {
      && log != [] && Narrow(log) && Shows(vidmem[..], log)
      && cursorX == 2 * |log[|log| - 1]| && cursorY == CursorRow(log)
    }

    /** Boot: cls, and the cursor set to the upper left corner. */
    constructor (memory: array<byte>)
      requires memory.Length == SCREEN
      modifies memory
      ensures vidmem == memory && Valid() && log == [[]]
    {
      vidmem := memory;
      cursorX, cursorY := 0, 0;
      log := [[]];
      new;
      Cls();
    }

    method Cls()
      requires vidmem.Length == SCREEN
      modifies vidmem
      ensures Shows(vidmem[..], [[]])
    {
      var i := 0;
      while i < SCREEN
        invariant i <= SCREEN && i % 2 == 0
        invariant forall k :: 0 <= k < i ==> vidmem[k] == if k % 2 == 0 then BLANK else COLOR
      {
        vidmem[i] := BLANK;
        i := i + 1;
        vidmem[i] := COLOR;
        i := i + 1;
      }
      vidmem[0] := BLANK;
      vidmem[1] := COLOR;
      AlternatingShows(vidmem[..]);
    }

    method ClearLine(p: nat)
      requires p + 160 <= vidmem.Length
      modifies vidmem
      ensures forall i :: 0 <= i < vidmem.Length && !(p <= i < p + 160) ==> vidmem[i] == old(vidmem[i])
      ensures forall c: nat :: c < COLUMNS ==> vidmem[p + c * 2] == BLANK && vidmem[p + c * 2 + 1] == COLOR
    {
      var i, at := 0, p;
      while i < COLUMNS
        invariant i <= COLUMNS && at == p + i * 2
        invariant forall k :: 0 <= k < vidmem.Length && !(p <= k < p + 160) ==> vidmem[k] == old(vidmem[k])
        invariant forall c: nat :: c < i ==> vidmem[p + c * 2] == BLANK && vidmem[p + c * 2 + 1] == COLOR
      {
        vidmem[at] := BLANK;
        at := at + 1;
        vidmem[at] := COLOR;
        at := at + 1;
        i := i + 1;
      }
    }

    method ScrollUp()
      requires vidmem.Length == SCREEN
      modifies vidmem
      ensures forall i :: 0 <= i < SCREEN - 160 ==> vidmem[i] == old(vidmem[i + 160])
      ensures forall c: nat :: c < COLUMNS ==> Blanked(vidmem[..], LAST, c)
    {
      MemCpy(vidmem, 0, 160, SCREEN - 160);
      ghost var m := vidmem[..];
      ClearLine(SCREEN - 160);
      assert forall i :: 0 <= i < SCREEN - 160 ==> vidmem[i] == m[i];
      forall c: nat | c < COLUMNS ensures Blanked(vidmem[..], LAST, c) {
        assert vidmem[SCREEN - 160 + c * 2] == BLANK && vidmem[SCREEN - 160 + c * 2 + 1] == COLOR;
      }
    }

    method NewLine()
      requires Valid()
      modifies this, vidmem
      ensures Valid() && log == Fed(old(log), NEWLINE)
    {
      if cursorY >= ROWS - 1 {
        ghost var m := vidmem[..];
        ScrollUp();
        ScrolledShows(m, vidmem[..], log);
        cursorX := 0;
      } else {
        NewLineShows(vidmem[..], log);
        cursorX, cursorY := 0, cursorY + 1;
      }
      log := Fed(log, NEWLINE);
    }

    method PutChar(ch: byte)
      requires Valid() && Narrow(Fed(log, ch))
      modifies this, vidmem
      ensures Valid() && log == Fed(old(log), ch)
    {
      var i := cursorY * 160 + cursorX;
      if ch == NEWLINE {
        NewLine();
        return;
      }
      LastIsNarrow(log, ch);
      CharShows(vidmem[..], log, ch);
      ghost var m: Mem := vidmem[..];
      vidmem[i] := ch;
      i := i + 1;
      vidmem[i] := COLOR;
      assert vidmem[..] == Put(m, i - 1, ch);
      cursorX := cursorX + 2;
      log := Fed(log, ch);
    }

    /** printf, of the characters in front of the terminating zero. */
    method Printf(message: array<byte>, ghost length: nat)
      requires Valid() && message != vidmem
      requires length < message.Length && message[length] == 0 && forall k :: 0 <= k < length ==> message[k] != 0
      requires Narrow(FedAll(log, message[..length]))
      modifies this, vidmem
      ensures Valid() && log == FedAll(old(log), message[..length])
    {
      var i := 0;
      ghost var text := message[..length];
      while message[i] != 0
        invariant i <= length && message[..length] == text
        invariant Valid() && log == FedAll(old(log), text[..i])
        decreases length - i
      {
        NarrowSoFar(old(log), text, i + 1);
        assert text[..i + 1][..i] == text[..i];
        PutChar(message[i]);
        i := i + 1;
      }
      assert text[..i] == text;
    }
  }

  lemma AlternatingShows(m: Mem)
    requires |m| == SCREEN && forall k :: 0 <= k < SCREEN ==> m[k] == if k % 2 == 0 then BLANK else COLOR
    ensures Shows(m, [[]])
  {
    forall r: nat, c: nat | r < ROWS && c < COLUMNS
      ensures CharAt(m, r, c) == Glyph([[]], r, c) && AttributeAt(m, r, c) == COLOR
    {
      assert (r * 160 + c * 2) % 2 == 0;
    }
  }

  lemma LastIsNarrow(log: Log, ch: byte)
    requires log != [] && ch != NEWLINE && Narrow(Fed(log, ch))
    ensures |log[|log| - 1]| < COLUMNS
  {
    assert |Fed(log, ch)[|log| - 1]| <= COLUMNS;
  }

  /** If everything fits in the end, it did so all along. */
  lemma {:induction false} NarrowSoFar(log: Log, text: seq<byte>, n: nat)
    requires log != [] && n <= |text| && Narrow(FedAll(log, text))
    ensures Narrow(FedAll(log, text[..n]))
    decreases |text|
  {
    if n < |text| {
      var shorter := text[..|text| - 1];
      NarrowBefore(FedAll(log, shorter), text[|text| - 1]);
      NarrowSoFar(log, shorter, n);
      assert shorter[..n] == text[..n];
    } else {
      assert text[..n] == text;
    }
  }

  lemma NarrowBefore(log: Log, ch: byte)
    requires log != [] && Narrow(Fed(log, ch))
    ensures Narrow(log)
  {
    forall i | 0 <= i < |log| ensures |log[i]| <= COLUMNS {
      assert |Fed(log, ch)[i]| <= COLUMNS;
    }
  }
}
