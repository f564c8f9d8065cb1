/**
 * The text screen: 25 rows of 80 cells in video memory, scrolled in place, as a window
 * over an unbounded tape of rows on which nothing is ever moved.
 */
module Vga {
  import opened Common

  const MAX_ROWS: nat := 25
  const MAX_COLS: nat := 80
  const SCREEN_CELLS: nat := 2000
  const SCREEN_BYTES: nat := 4000
  const ROW_BYTES: nat := 160
  const NEWLINE: byte := 10
  const SPACE: byte := 32
  const WHITE_ON_BLACK: byte := 0x0F

  // ----- offsets --------------------------------------------------------------

  function GetOffset(col: nat, row: nat): u16 {
    (row * MAX_COLS + col) * 2 % 0x1_0000
  }

  function OffsetToRow(offset: nat): nat {
    offset / (2 * MAX_COLS)
  }

  function OffsetToCol(offset: nat): nat {
    (offset - OffsetToRow(offset) * MAX_COLS * 2) / 2
  }

  /** Row and column survive the trip through an offset, and offsets of cells through row and column. */
  lemma OffsetRoundTrip(col: nat, row: nat, cell: nat)
    requires col < MAX_COLS && row <= MAX_ROWS && cell < SCREEN_CELLS
    ensures OffsetToRow(GetOffset(col, row)) == row && OffsetToCol(GetOffset(col, row)) == col
    ensures OffsetToCol(2 * cell) == cell % MAX_COLS && OffsetToRow(2 * cell) == cell / MAX_COLS < MAX_ROWS
    ensures GetOffset(OffsetToCol(2 * cell), OffsetToRow(2 * cell)) == 2 * cell
  {
  }

  // ----- the tape ---------------------------------------------------------------

  datatype Cell = Cell(character: byte, color: byte)

  const BLANK: Cell := Cell(0, 0)

  /** The cells shown at the start, the cursor's cell then, and everything printed since. */
  datatype Tape = Tape(initial: seq<Cell>, start: nat, printed: seq<Cell>)

  /** Where the cursor goes after a character at position p. */
  function NextPos(p: nat, c: byte): (next: nat)
    ensures c == 10 ==> next % 80 == 0 && p < next <= p + 80
    ensures c != 10 ==> next == p + 1
  {
    if c == NEWLINE then (p / MAX_COLS + 1) * MAX_COLS else p + 1
  }

  /** The cursor on the tape. */
  function Pos(t: Tape): nat
    decreases |t.printed|
  {
    if t.printed == [] then t.start
    else NextPos(Pos(Before(t)), Last(t).character)
  }

  function Before(t: Tape): Tape
    requires t.printed != []
  {
    t.(printed := t.printed[..|t.printed| - 1])
  }

  function Last(t: Tape): Cell
    requires t.printed != []
  {
    t.printed[|t.printed| - 1]
  }

  /** The cell at position n of the tape: the character printed there, or what was there before. */
  function CellOf(t: Tape, n: nat): Cell
    decreases |t.printed|
  {
    if t.printed == [] then (if n < |t.initial| then t.initial[n] else BLANK)
    else if Last(t).character != NEWLINE && n == Pos(Before(t)) then Last(t)
    else CellOf(Before(t), n)
  }

  /** The first row of the tape that is on the screen, in closed form. */
  function TopRow(pos: nat): nat {
    if pos / MAX_COLS < MAX_ROWS then 0 else pos / MAX_COLS - (MAX_ROWS - 1)
  }

  function Print(t: Tape, c: Cell): Tape {
    t.(printed := t.printed + [c])
  }

  lemma PrintStep(t: Tape, c: Cell, n: nat)
    ensures Pos(Print(t, c)) == NextPos(Pos(t), c.character)
    ensures CellOf(Print(t, c), n) == if c.character != NEWLINE && n == Pos(t) then c else CellOf(t, n)
  {
  }

  /** Nothing has been printed from the cursor on. */
  lemma {:induction false} BeyondCursor(t: Tape, n: nat)
    requires n >= Pos(t) && n >= |t.initial|
    ensures CellOf(t, n) == BLANK
    decreases |t.printed|
  {
    if t.printed != [] {
      assert Pos(t) > Pos(Before(t)) by { NextPosGrows(Pos(Before(t)), Last(t).character); }
      BeyondCursor(Before(t), n);
    }
  }

  lemma NextPosGrows(p: nat, c: byte)
    ensures p < NextPos(p, c) <= p + MAX_COLS
    ensures TopRow(p) <= TopRow(NextPos(p, c)) <= TopRow(p) + 1
  {
  }

  // ----- video memory ---------------------------------------------------------------

  function CellAt(m: seq<byte>, i: nat): Cell
    requires 2 * i + 1 < |m|
  {
    Cell(m[2 * i], m[2 * i + 1])
  }

  ghost predicate ShowsCell(m: seq<byte>, t: Tape, i: int) {
    0 <= i && 2 * i + 1 < |m| && CellAt(m, i) == CellOf(t, TopRow(Pos(t)) * MAX_COLS + i)
  }

  /** Video memory is the window of the tape that ends with the cursor's row. */
  ghost predicate Shows(m: seq<byte>, cursor: nat, t: Tape) {
    && |m| == SCREEN_BYTES && |t.initial| == SCREEN_CELLS
    && cursor < SCREEN_CELLS && TopRow(Pos(t)) * MAX_COLS + cursor == Pos(t)
    && forall i :: 0 <= i < SCREEN_CELLS ==> ShowsCell(m, t, i)
  }

  /** What video memory shows, cell by cell. */
  function Shown(m: seq<byte>): (r: seq<Cell>)
    requires |m| == SCREEN_BYTES
    ensures |r| == SCREEN_CELLS && forall i :: 0 <= i < SCREEN_CELLS ==> r[i] == CellAt(m, i)
  {
    seq(SCREEN_CELLS, i requires 0 <= i < SCREEN_CELLS => CellAt(m, i))
  }

  lemma FreshTape(m: seq<byte>, cursor: nat)
    requires |m| == SCREEN_BYTES && cursor < SCREEN_CELLS
    ensures Shows(m, cursor, Tape(Shown(m), cursor, []))
  {
  }

  /** Every row moves up by one and the last one is cleared. */
  function Scroll(m: seq<byte>): (r: seq<byte>)
    requires |m| == SCREEN_BYTES
    ensures |r| == SCREEN_BYTES
  {
    m[ROW_BYTES..] + seq(ROW_BYTES, _ => 0)
  }

  function DefaultColor(color: byte): byte {
    if color == 0 then WHITE_ON_BLACK else color
  }

  /** Video memory and offset after the character, before any scrolling. */
  function Place(m: seq<byte>, c: byte, col: nat, row: nat, color: byte): (r: (seq<byte>, nat))
    requires |m| == SCREEN_BYTES && col < MAX_COLS && row < MAX_ROWS
    ensures |r.0| == SCREEN_BYTES
  {
    if c == NEWLINE then (m, (row + 1) * ROW_BYTES)
    else
      var off := (row * MAX_COLS + col) * 2;
      (m[off := c][off + 1 := DefaultColor(color)], off + 2)
  }

  /** Video memory and offset after print_char. */
  function Put(m: seq<byte>, c: byte, col: nat, row: nat, color: byte): (r: (seq<byte>, nat))
    requires |m| == SCREEN_BYTES && col < MAX_COLS && row < MAX_ROWS
    ensures |r.0| == SCREEN_BYTES && r.1 < SCREEN_BYTES && r.1 % 2 == 0
  {
    var (n, off) := Place(m, c, col, row, color);
    if off >= SCREEN_BYTES then (Scroll(n), off - ROW_BYTES) else (n, off)
  }

  lemma PlaceCell(m: seq<byte>, cursor: nat, c: byte, color: byte, i: nat)
    requires |m| == SCREEN_BYTES && cursor < SCREEN_CELLS && i < SCREEN_CELLS
    ensures var (n, off) := Place(m, c, cursor % MAX_COLS, cursor / MAX_COLS, color);
      && off == 2 * NextPos(cursor, c)
      && CellAt(n, i) == if c != NEWLINE && i == cursor then Cell(c, DefaultColor(color)) else CellAt(m, i)
  {
  }

  /** What print_char does to the cell at place i, in numbers: `at` is the character's own place. */
  lemma PutExact(m: seq<byte>, c: byte, col: nat, row: nat, color: byte, i: nat)
    requires |m| == SCREEN_BYTES && col < 80 && row < 25 && i < 2000
    ensures var (n, off) := Put(m, c, col, row, color);
      var at, next := row * 80 + col, if c == 10 then (row + 1) * 80 else row * 80 + col + 1;
      && off == 2 * (if next < 2000 then next else next - 80)
      && var j := if next < 2000 then i else i + 80;
        CellAt(n, i) ==
          if j >= 2000 then Cell(0, 0)
          else if c != 10 && j == at then Cell(c, if color == 0 then 0x0F else color)
          else CellAt(m, j)
  {
    hide Scroll;
    var n := Place(m, c, col, row, color).0;
    assert (row * 80 + col) / 80 == row && (row * 80 + col) % 80 == col;
    ScrollCell(n, i);
    PlaceCell(m, row * 80 + col, c, color, i);
    if i + 80 < 2000 { PlaceCell(m, row * 80 + col, c, color, i + 80); }
  }

  lemma ScrollCell(m: seq<byte>, i: nat)
    requires |m| == SCREEN_BYTES && i < SCREEN_CELLS
    ensures |Scroll(m)| == SCREEN_BYTES
    ensures CellAt(Scroll(m), i) == if i < SCREEN_CELLS - MAX_COLS then CellAt(m, i + MAX_COLS) else BLANK
  {
  }

  /** The cursor scrolls off the screen exactly when the top row of the window advances. */
  lemma WindowMoves(pos: nat, cursor: nat, c: byte)
    requires cursor < SCREEN_CELLS && TopRow(pos) * MAX_COLS + cursor == pos
    ensures var next := NextPos(cursor, c);
      && (next >= SCREEN_CELLS <==> TopRow(NextPos(pos, c)) == TopRow(pos) + 1)
      && (next < SCREEN_CELLS <==> TopRow(NextPos(pos, c)) == TopRow(pos))
      && TopRow(NextPos(pos, c)) * MAX_COLS + (if next >= SCREEN_CELLS then next - MAX_COLS else next) == NextPos(pos, c)
      && (next >= SCREEN_CELLS ==> next - MAX_COLS == SCREEN_CELLS - MAX_COLS)
  {
  }

  /** One character printed at the cursor keeps the screen a window of the tape. */
  lemma PutShows(m: seq<byte>, cursor: nat, t: Tape, c: byte, color: byte)
    requires Shows(m, cursor, t)
    ensures var (n, off) := Put(m, c, cursor % MAX_COLS, cursor / MAX_COLS, color);
      Shows(n, off / 2, Print(t, Cell(c, DefaultColor(color))))
  {
    hide Place, NextPos, TopRow, CellOf, Scroll, Pos;
    var e := Cell(c, DefaultColor(color));
    var u := Print(t, e);
    var (n, off) := Place(m, c, cursor % MAX_COLS, cursor / MAX_COLS, color);
    var (o, end) := Put(m, c, cursor % MAX_COLS, cursor / MAX_COLS, color);
    PlaceCell(m, cursor, c, color, 0);
    PrintStep(t, e, 0);
    WindowMoves(Pos(t), cursor, c);
    var top, next := TopRow(Pos(t)), TopRow(Pos(u));
    forall i | 0 <= i < SCREEN_CELLS ensures ShowsCell(o, u, i) {
      PrintStep(t, e, next * MAX_COLS + i);
      if next == top {
        PlaceCell(m, cursor, c, color, i);
        assert ShowsCell(m, t, i);
      } else {
        ScrollCell(n, i);
        if i < SCREEN_CELLS - MAX_COLS {
          PlaceCell(m, cursor, c, color, i + MAX_COLS);
          assert ShowsCell(m, t, i + MAX_COLS);
        } else {
          BeyondCursor(u, next * MAX_COLS + i);
        }
      }
    }
  }

  lemma CursorOnScreen(m: seq<byte>, cursor: nat, t: Tape)
    requires Shows(m, cursor, t)
    ensures |m| == SCREEN_BYTES && cursor < SCREEN_CELLS
  {
  }

  // ----- the device ------------------------------------------------------------------

  class Screen {
    const vidmem: array<byte>
    /** The hardware cursor, counted in cells. */
    var cursor: nat
    ghost var tape: Tape

    ghost predicate Valid()
      reads this, vidmem
    {
      vidmem.Length == SCREEN_BYTES && Shows(vidmem[..], cursor, tape)
    }

    /** The screen as it is found: the tape starts with what is shown. */
    constructor (vidmem: array<byte>, cursor: nat)
      requires vidmem.Length == SCREEN_BYTES && cursor < SCREEN_CELLS
      ensures Valid() && this.vidmem == vidmem && tape.printed == []
    {
      this.vidmem := vidmem;
      this.cursor := cursor;
      tape := Tape(Shown(vidmem[..]), cursor, []);
      FreshTape(vidmem[..], cursor);
    }

    /** The inner copying loop: row i over the one above it. */
    method CopyRowUp(i: nat)
      requires vidmem.Length == SCREEN_BYTES && 1 <= i < MAX_ROWS
      modifies vidmem
      ensures forall a :: (i - 1) * ROW_BYTES <= a < i * ROW_BYTES ==> vidmem[a] == old(vidmem[a + ROW_BYTES])
      ensures forall a :: 0 <= a < SCREEN_BYTES && !((i - 1) * ROW_BYTES <= a < i * ROW_BYTES) ==> vidmem[a] == old(vidmem[a])
    {
      var to, from := GetOffset(0, i - 1), GetOffset(0, i);
      assert from == to + ROW_BYTES == i * ROW_BYTES;
      for j := 0 to ROW_BYTES
        invariant forall a :: to <= a < to + j ==> vidmem[a] == old(vidmem[a + ROW_BYTES])
        invariant forall a :: 0 <= a < SCREEN_BYTES && !(to <= a < to + j) ==> vidmem[a] == old(vidmem[a])
      {
        vidmem[to + j] := vidmem[from + j];
      }
    }

    method ClearLastRow()
      requires vidmem.Length == SCREEN_BYTES
      modifies vidmem
      ensures vidmem[..] == old(vidmem[..SCREEN_BYTES - ROW_BYTES]) + seq(ROW_BYTES, _ => 0)
    {
      var to := GetOffset(0, MAX_ROWS - 1);
      assert to == SCREEN_BYTES - ROW_BYTES;
      for j := 0 to ROW_BYTES
        invariant forall a :: to <= a < to + j ==> vidmem[a] == 0
        invariant forall a :: 0 <= a < to ==> vidmem[a] == old(vidmem[a])
      {
        vidmem[to + j] := 0;
      }
    }

    /** Copy each row over the one above it, then clear the last. */
    method ScrollUp()
      requires vidmem.Length == SCREEN_BYTES
      modifies vidmem
      ensures vidmem[..] == Scroll(old(vidmem[..]))
    {
      ghost var m := vidmem[..];
      for i := 1 to MAX_ROWS
        invariant forall a :: 0 <= a < (i - 1) * ROW_BYTES ==> vidmem[a] == m[a + ROW_BYTES]
        invariant forall a :: (i - 1) * ROW_BYTES <= a < SCREEN_BYTES ==> vidmem[a] == m[a]
      {
        CopyRowUp(i);
      }
      assert vidmem[..SCREEN_BYTES - ROW_BYTES] == m[ROW_BYTES..];
      ClearLastRow();
    }

    /** print_char, away from the tape: it is also called for cells other than the cursor's. */
    method PrintChar(character: byte, col: byte, row: byte, color: byte) returns (offset: nat)
      requires vidmem.Length == SCREEN_BYTES
      modifies `cursor, vidmem
      ensures col >= MAX_COLS || row >= MAX_ROWS ==> offset == 0 && cursor == old(cursor) && vidmem[..] == old(vidmem[..])
      ensures col < MAX_COLS && row < MAX_ROWS ==>
        (vidmem[..], offset) == Put(old(vidmem[..]), character, col, row, color) && cursor == offset / 2
      ensures col < 80 && row < 25 ==>
        var at, next := row * 80 + col, if character == 10 then (row + 1) * 80 else row * 80 + col + 1;
        && cursor == (if next < 2000 then next else next - 80)
        && forall i: nat :: i < 2000 ==>
          var j := if next < 2000 then i else i + 80;
          CellAt(vidmem[..], i) ==
            if j >= 2000 then Cell(0, 0)
            else if character != 10 && j == at then Cell(character, if color == 0 then 0x0F else color)
            else CellAt(old(vidmem[..]), j)
    {
      hide Scroll, Place, CellAt;
      ghost var m := vidmem[..];
      if col >= MAX_COLS || row >= MAX_ROWS { return 0; }
      var vidmemOffset := PlaceChar(character, col, row, color);
      if vidmemOffset >= SCREEN_BYTES {
        ScrollUp();
        vidmemOffset := vidmemOffset - ROW_BYTES;
      }
      cursor := vidmemOffset / 2;
      offset := vidmemOffset;
      assert (vidmem[..], offset) == Put(m, character, col, row, color);
      hide Put;
      PutExact(m, character, col, row, color, 0);
      forall i: nat | i < 2000
        ensures var next := if character == 10 then (row + 1) * 80 else row * 80 + col + 1;
          var j := if next < 2000 then i else i + 80;
          CellAt(vidmem[..], i) ==
            if j >= 2000 then Cell(0, 0)
            else if character != 10 && j == row * 80 + col then Cell(character, if color == 0 then 0x0F else color)
            else CellAt(m, j)
      {
        PutExact(m, character, col, row, color, i);
      }
    }

    /** The part of print_char before scrolling. */
    method PlaceChar(character: byte, col: byte, row: byte, color: byte) returns (offset: nat)
      requires vidmem.Length == SCREEN_BYTES && col < MAX_COLS && row < MAX_ROWS
      modifies vidmem
      ensures (vidmem[..], offset) == Place(old(vidmem[..]), character, col, row, color)
    {
      var charColor := if color == 0 then WHITE_ON_BLACK else color;
      offset := GetOffset(col, row);
      if character == NEWLINE {
        offset := GetOffset(0, row + 1);
      } else {
        vidmem[offset] := character;
        vidmem[offset + 1] := charColor;
        offset := offset + 2;
      }
    }

    /** One character at the cursor, seen on the tape. */
    method PrintAtCursor(character: byte, color: byte, offset: nat) returns (after: nat)
      requires Valid() && offset == 2 * cursor
      modifies this, vidmem
      ensures Valid() && after == 2 * cursor
      ensures tape == Print(old(tape), Cell(character, DefaultColor(color)))
    {
      hide Put, Shows, OffsetToCol, OffsetToRow;
      CursorOnScreen(vidmem[..], cursor, tape);
      var row := OffsetToRow(offset);
      var col := OffsetToCol(offset);
      PutShows(vidmem[..], cursor, tape, character, color);
      OffsetRoundTrip(0, 0, cursor);
      after := PrintChar(character, col, row, color);
      tape := Print(tape, Cell(character, DefaultColor(color)));
    }

    /** vga_print_screen; the message is a C string without its terminator. */
    method PrintScreen(message: seq<byte>, color: byte)
      requires Valid()
      modifies this, vidmem
      ensures Valid()
      ensures tape == old(tape).(printed := old(tape).printed + Colored(message, color))
    {
      hide Shows;
      var offset := 2 * cursor;
      var i := 0;
      while i < |message|
        invariant i <= |message| && Valid() && offset == 2 * cursor
        invariant tape == old(tape).(printed := old(tape).printed + Colored(message[..i], color))
      {
        offset := PrintAtCursor(message[i], color, offset);
        ColoredMore(message, color, i);
        i := i + 1;
      }
      assert message[..i] == message;
    }

    /** vga_print_screen_char */
    method PrintScreenChar(character: byte, color: byte)
      requires Valid()
      modifies this, vidmem
      ensures Valid()
      ensures tape == Print(old(tape), Cell(character, DefaultColor(color)))
    {
      var offset := PrintAtCursor(character, color, 2 * cursor);
    }

    /**
     * vga_clear_screen: blanks every cell in turn.  The last one scrolls the screen, so the
     * bottom row ends up zeroed rather than blank; the tape starts afresh.
     */
    method ClearScreen()
      requires Valid()
      modifies this, vidmem
      ensures Valid() && cursor == 0 && tape.printed == []
      ensures forall i :: 0 <= i < SCREEN_CELLS ==>
        tape.initial[i] == if i < SCREEN_CELLS - MAX_COLS then Cell(SPACE, WHITE_ON_BLACK) else BLANK
    {
      for row := 0 to MAX_ROWS
        invariant Blanked(row * MAX_COLS)
      {
        for col := 0 to MAX_COLS
          invariant row < MAX_ROWS && Blanked(row * MAX_COLS + col)
        {
          BlankNext(row, col);
        }
      }
      cursor := 0;
      tape := Tape(Shown(vidmem[..]), 0, []);
      FreshTape(vidmem[..], 0);
    }

    /** The first n cells are blank; after the last one the screen has scrolled. */
    ghost predicate Blanked(n: nat)
      reads vidmem
    {
      && vidmem.Length == SCREEN_BYTES && n <= SCREEN_CELLS
      && (n < SCREEN_CELLS ==> forall i :: 0 <= i < n ==> CellAt(vidmem[..], i) == Cell(SPACE, WHITE_ON_BLACK))
      && (n == SCREEN_CELLS ==> forall i :: 0 <= i < n ==>
           CellAt(vidmem[..], i) == if i < SCREEN_CELLS - MAX_COLS then Cell(SPACE, WHITE_ON_BLACK) else BLANK)
    }

    method BlankNext(row: nat, col: nat)
      requires row < MAX_ROWS && col < MAX_COLS && Blanked(row * MAX_COLS + col)
      modifies `cursor, vidmem
      ensures Blanked(row * MAX_COLS + col + 1)
    {
      hide Place, Scroll;
      ghost var m, n := vidmem[..], row * MAX_COLS + col;
      assert n / MAX_COLS == row && n % MAX_COLS == col;
      assert forall i :: 0 <= i < n ==> CellAt(m, i) == Cell(SPACE, WHITE_ON_BLACK);
      PlaceCell(m, n, SPACE, 0, 0);
      var offset := PrintChar(SPACE, col, row, 0);
      ghost var placed := Place(m, SPACE, col, row, 0).0;
      forall i | 0 <= i < SCREEN_CELLS
        ensures CellAt(placed, i) == if i == n then Cell(SPACE, WHITE_ON_BLACK) else CellAt(m, i)
      {
        PlaceCell(m, n, SPACE, 0, i);
      }
      ghost var scrolled := Scroll(placed);
      forall i | 0 <= i < SCREEN_CELLS
        ensures CellAt(scrolled, i) == if i < SCREEN_CELLS - MAX_COLS then CellAt(placed, i + MAX_COLS) else BLANK
      {
        ScrollCell(placed, i);
      }
      assert vidmem[..] == if n + 1 < SCREEN_CELLS then placed else scrolled;
    }
  }

  /** The cells a message is printed as. */
  function Colored(message: seq<byte>, color: byte): (r: seq<Cell>)
    ensures |r| == |message|
  {
    seq(|message|, i requires 0 <= i < |message| => Cell(message[i], DefaultColor(color)))
  }

  lemma ColoredMore(message: seq<byte>, color: byte, i: nat)
    requires i < |message|
    ensures Colored(message[..i + 1], color) == Colored(message[..i], color) + [Cell(message[i], DefaultColor(color))]
  {
  }
}
