/** The scrolling text terminal, and the unbounded one that it shows a part of. */
module Terminal {
  import opened Bytes

  const WIDTH: nat := 80
  const HEIGHT: nat := 25
  const SCROLLBACK: nat := 100
  const NEWLINE: Byte := 10
  const SPACE: Byte := 32

  /** A character and its colour: two bytes of a screen row. */
  datatype Cell = Cell(ch: Byte, color: Byte)

  function Blank(color: Byte): Row { seq(WIDTH, _ => Cell(SPACE, color)) }

  type Row = r: seq<Cell> | |r| == WIDTH witness seq(WIDTH, _ => Cell(SPACE, 7))

  // ----- The unbounded terminal -----

  /** Lines of at most 80 cells; the last one is where the cursor is. */
  type Lines = seq<seq<Cell>>

  function PutCell(rows: Lines, g: Cell): Lines
    requires rows != []
  {
    rows[|rows|-1 := rows[|rows|-1] + [g]]
  }

  /** A newline starts a line, and so does the 80th cell. */
  function Extend(rows: Lines, g: Cell): Lines
    requires rows != []
  {
    if g.ch == NEWLINE then rows + [[]]
    else if |rows[|rows|-1]| + 1 >= WIDTH then PutCell(rows, g) + [[]]
    else PutCell(rows, g)
  }

  /** The layout of everything printed since the screen was cleared. */
  function Layout(text: seq<Cell>): (rows: Lines)
    ensures rows != [] && |rows[|rows|-1]| < WIDTH
    ensures forall r :: 0 <= r < |rows| ==> |rows[r]| <= WIDTH
  {
    if text == [] then [[]] else Extend(Layout(text[..|text|-1]), text[|text|-1])
  }

  function Flatten(rows: Lines): seq<Cell> {
    if rows == [] then [] else Flatten(rows[..|rows|-1]) + rows[|rows|-1]
  }

  function Visible(text: seq<Cell>): seq<Cell> {
    if text == [] then []
    else
      var g := text[|text|-1];
      Visible(text[..|text|-1]) + (if g.ch == NEWLINE then [] else [g])
  }

  /** The lines hold exactly the printed cells in order. */
  lemma {:induction false} LayoutKeepsText(text: seq<Cell>)
    ensures Flatten(Layout(text)) == Visible(text)
  {
    if text != [] {
      LayoutKeepsText(text[..|text|-1]);
      var rows, g := Layout(text[..|text|-1]), text[|text|-1];
      if g.ch == NEWLINE {
        FlattenNewLine(rows);
      } else {
        assert PutCell(rows, g)[..|rows|-1] == rows[..|rows|-1];
        FlattenNewLine(PutCell(rows, g));
      }
    }
  }

  lemma FlattenNewLine(rows: Lines)
    ensures Flatten(rows + [[]]) == Flatten(rows)
  {
    assert (rows + [[]])[..|rows|] == rows;
  }

  /** A newline breaks the line wherever it stands, and what follows is laid out
      as if the screen had just been cleared. */
  lemma {:induction false} LayoutBreaks(a: seq<Cell>, g: Cell, b: seq<Cell>)
    requires g.ch == 10
    ensures Layout(a + [g] + b) == Layout(a) + Layout(b)
    decreases |b|
  {
    if b == [] {
      assert a + [g] + b == a + [g] && (a + [g])[..|a|] == a;
    } else {
      var n := |b| - 1;
      LayoutBreaks(a, g, b[..n]);
      assert (a + [g] + b)[..|a| + 1 + n] == a + [g] + b[..n];
      ExtendBelow(Layout(a), Layout(b[..n]), b[n]);
    }
  }

  lemma ExtendBelow(above: Lines, rows: Lines, g: Cell)
    requires rows != []
    ensures Extend(above + rows, g) == above + Extend(rows, g)
  {
    assert (above + rows)[|above + rows| - 1] == rows[|rows| - 1];
  }

  /** Text without newlines fills lines of exactly 80. */
  lemma {:induction false} LayoutWraps(text: seq<Cell>, k: nat)
    requires forall j :: 0 <= j < |text| ==> text[j].ch != 10
    ensures |Layout(text)| == |text| / 80 + 1 && |Layout(text)[|text| / 80]| == |text| % 80
    ensures forall r :: 0 <= r < |text| / 80 ==> |Layout(text)[r]| == 80
    ensures k < |text| ==> k % 80 < |Layout(text)[k / 80]| && Layout(text)[k / 80][k % 80] == text[k]
  {
    if text != [] {
      var n := |text| - 1;
      LayoutWraps(text[..n], k);
      assert text[..n] == text[..n];
      assert n / WIDTH == |text| / WIDTH || (n % WIDTH == WIDTH - 1 && |text| / WIDTH == n / WIDTH + 1);
    }
  }

  // ----- What the scrollback buffer shows of it -----

  /** Colour of the untouched cells of line `r`: lines that scroll in are blanked
      in colour 7, whatever the screen was cleared to. */
  function PadColor(r: nat, clear: Byte): Byte { if r < SCROLLBACK then clear else 7 }

  function Shown(rows: Lines, r: nat, clear: Byte): Row
    requires r < |rows| ==> |rows[r]| <= WIDTH
  {
    var line := if r < |rows| then rows[r] else [];
    line + seq(WIDTH - |line|, _ => Cell(SPACE, PadColor(r, clear)))
  }

  predicate Fits(rows: Lines) {
    rows != [] && forall r :: 0 <= r < |rows| ==> |rows[r]| <= WIDTH
  }

  /** Lines that have scrolled out. */
  function Gone(rows: Lines): nat { if |rows| <= SCROLLBACK then 0 else |rows| - SCROLLBACK }

  /** The last 100 lines, or all of them and blank lines below. */
  function Window(rows: Lines, clear: Byte): (b: seq<Row>)
    requires Fits(rows)
    ensures |b| == SCROLLBACK
    ensures forall i :: 0 <= i < SCROLLBACK ==> b[i] == Shown(rows, Gone(rows) + i, clear)
  {
    seq<Row>(SCROLLBACK, i requires 0 <= i < SCROLLBACK => Shown(rows, Gone(rows) + i, clear))
  }

  /** What cell `c` of line `r` shows: the text, or a blank behind it. */
  lemma ShownCell(rows: Lines, r: nat, c: nat, clear: Byte)
    requires Fits(rows) && c < WIDTH
    ensures Shown(rows, r, clear)[c] ==
            if r < |rows| && c < |rows[r]| then rows[r][c] else Cell(32, if r < 100 then clear else 7)
  {
  }

  lemma EmptyShows(clear: Byte)
    ensures forall i :: 0 <= i < SCROLLBACK ==> Window([[]], clear)[i] == Blank(clear)
  {
    var none: Lines := [[]];
    assert Gone(none) == 0;
    assert forall i :: 0 <= i < SCROLLBACK ==> Shown(none, i, clear) == Blank(clear);
  }

  lemma PutShows(rows: Lines, g: Cell, clear: Byte)
    requires Fits(rows) && |rows[|rows|-1]| < WIDTH
    ensures Fits(PutCell(rows, g))
    ensures var at := |rows| - 1 - Gone(rows);
            var b := Window(rows, clear);
            Window(PutCell(rows, g), clear) == b[at := b[at][|rows[|rows|-1]| := g]]
  {
    var n := |rows| - 1;
    assert Shown(PutCell(rows, g), n, clear) == Shown(rows, n, clear)[|rows[n]| := g];
  }

  lemma NewLineShows(rows: Lines, clear: Byte)
    requires Fits(rows)
    ensures Fits(rows + [[]])
    ensures var b := Window(rows, clear);
            Window(rows + [[]], clear) == if |rows| < SCROLLBACK then b else b[1..] + [Blank(7)]
  {
    var n, b := |rows|, Window(rows, clear);
    assert forall r :: 0 <= r < n ==> Shown(rows + [[]], r, clear) == Shown(rows, r, clear);
    assert Shown(rows + [[]], n, clear) == Blank(PadColor(n, clear));
    if n < SCROLLBACK {
      assert forall i :: 0 <= i < SCROLLBACK ==> Window(rows + [[]], clear)[i] == b[i];
    } else {
      forall i | 0 <= i < SCROLLBACK
        ensures Window(rows + [[]], clear)[i] == (b[1..] + [Blank(7)])[i]
      {
        if i < SCROLLBACK - 1 { assert b[1..][i] == b[i + 1]; }
      }
    }
  }

  class Console {
    const buffer: array<Row>
    const vga: array<Row>
    var cursorRow: int
    var cursorCol: int
    var scrollbackRow: int
    var viewRow: int

    constructor ()
      ensures Sizes()
    {
      buffer := new Row[SCROLLBACK](_ => Blank(0));
      vga := new Row[HEIGHT](_ => Blank(0));
      cursorRow, cursorCol, scrollbackRow, viewRow := 0, 0, 0, 0;
    }

    ghost predicate Sizes()
      reads this
    {
      buffer.Length == SCROLLBACK && vga.Length == HEIGHT && buffer != vga
    }

    /** Buffer and cursor show `rows`. */
    ghost predicate Holds(rows: Lines, clear: Byte)
      reads this, buffer
    {
      && Sizes() && Fits(rows)
      && buffer[..] == Window(rows, clear)
      && cursorRow == scrollbackRow == |rows| - 1 - Gone(rows)
      && cursorCol == |rows[|rows|-1]|
    }

    /** ... and the screen shows the 25 rows that end at the cursor, or the
        first 25. */
    ghost predicate Shows(text: seq<Cell>, clear: Byte)
      reads this, buffer, vga
    {
      && Holds(Layout(text), clear)
      && viewRow == (if cursorRow < HEIGHT then 0 else cursorRow - HEIGHT + 1)
      && vga[..] == buffer[viewRow..viewRow + HEIGHT]
    }

    /** Row `r` of the screen shows line `r` of the layout, or, once there are
        more than 25, line `r` of the last 25; the cursor is at the end of the
        layout. */
    lemma ScreenShows(text: seq<Cell>, clear: Byte, r: nat)
      requires Shows(text, clear) && r < 25
      ensures var rows := Layout(text);
              var first := if |rows| <= 25 then 0 else |rows| - 25;
              && vga[r] == Shown(rows, first + r, clear)
              && first + cursorRow - viewRow == |rows| - 1 && cursorCol == |rows[|rows|-1]|
              && 0 <= cursorRow - viewRow < 25
    {
      assert vga[..][r] == vga[r] && buffer[viewRow..viewRow + HEIGHT][r] == buffer[viewRow + r];
      assert buffer[..][viewRow + r] == buffer[viewRow + r];
    }

    /** Line `r` of the scrollback buffer is line `r` of the layout, or of its
        last 100. */
    lemma BufferShows(text: seq<Cell>, clear: Byte, r: nat)
      requires Shows(text, clear) && r < 100
      ensures var rows := Layout(text);
              buffer[r] == Shown(rows, (if |rows| <= 100 then 0 else |rows| - 100) + r, clear)
    {
      assert buffer[..][r] == buffer[r];
    }

    /** Rows behind the end of the buffer keep what the screen showed. */
    method RefreshScreen()
      requires Sizes() && 0 <= viewRow
      modifies vga
      ensures forall r :: 0 <= r < HEIGHT ==>
                vga[r] == if viewRow + r < SCROLLBACK then buffer[viewRow + r] else old(vga[r])
      ensures viewRow + HEIGHT <= SCROLLBACK ==> vga[..] == buffer[viewRow..viewRow + HEIGHT]
    {
      for row := 0 to HEIGHT
        invariant buffer[..] == old(buffer[..])
        invariant forall r :: 0 <= r < row ==>
                    vga[r] == if viewRow + r < SCROLLBACK then buffer[viewRow + r] else old(vga[r])
        invariant forall r :: row <= r < HEIGHT ==> vga[r] == old(vga[r])
      {
        var bufferRow := viewRow + row;
        if bufferRow < SCROLLBACK {
          vga[row] := buffer[bufferRow];
        }
      }
    }

    method ClearScreen(color: Byte)
      requires Sizes()
      modifies this, buffer, vga
      ensures Shows([], color)
    {
      for row := 0 to SCROLLBACK
        invariant forall r :: 0 <= r < row ==> buffer[r] == Blank(color)
      {
        buffer[row] := Blank(color);
      }
      cursorRow, cursorCol, scrollbackRow, viewRow := 0, 0, 0, 0;
      EmptyShows(color);
      RefreshScreen();
    }

    /** Shifts the buffer up and blanks the last line. */
    method ScrollBuffer()
      requires Sizes()
      modifies buffer
      ensures buffer[..] == old(buffer[..])[1..] + [Blank(7)]
    {
      for i := 1 to SCROLLBACK
        invariant forall k :: 0 <= k < i - 1 ==> buffer[k] == old(buffer[k + 1])
        invariant forall k :: i - 1 <= k < SCROLLBACK ==> buffer[k] == old(buffer[k])
      {
        buffer[i - 1] := buffer[i];
      }
      buffer[SCROLLBACK - 1] := Blank(7);
    }

    /** The cursor has moved to a new line. */
    method StartLine(ghost rows: Lines, ghost clear: Byte)
      requires Holds(rows, clear)
      modifies this`cursorRow, this`cursorCol, this`scrollbackRow, this`viewRow, buffer
      ensures Holds(rows + [[]], clear)
    {
      NewLineShows(rows, clear);
      ghost var next := Window(rows + [[]], clear);
      cursorCol := 0;
      cursorRow := cursorRow + 1;
      if cursorRow > scrollbackRow {
        scrollbackRow := cursorRow;
      }
      if cursorRow >= SCROLLBACK {
        ScrollBuffer();
        cursorRow, scrollbackRow, viewRow := cursorRow - 1, scrollbackRow - 1, viewRow - 1;
      }
      assert buffer[..] == next;
    }

    /** Writes a cell at the cursor and moves on. */
    method PutChar(g: Cell, ghost rows: Lines, ghost clear: Byte)
      requires Holds(rows, clear) && |rows[|rows|-1]| < WIDTH && g.ch != NEWLINE
      modifies this`cursorRow, this`cursorCol, this`scrollbackRow, this`viewRow, buffer
      ensures Holds(Extend(rows, g), clear)
    {
      PutShows(rows, g, clear);
      buffer[cursorRow] := buffer[cursorRow][cursorCol := g];
      cursorCol := cursorCol + 1;
      if cursorCol >= WIDTH {
        StartLine(PutCell(rows, g), clear);
      }
    }

    /** print_char keeps showing the unbounded layout of everything printed. */
    method PrintChar(c: Byte, color: Byte, ghost text: seq<Cell>, ghost clear: Byte)
      requires Shows(text, clear)
      modifies this, buffer, vga
      ensures Shows(text + [Cell(c, color)], clear)
    {
      ghost var g, rows := Cell(c, color), Layout(text);
      assert (text + [g])[..|text|] == text;
      if c == NEWLINE {
        StartLine(rows, clear);
      } else {
        PutChar(Cell(c, color), rows, clear);
      }
      assert Holds(Layout(text + [g]), clear);
      viewRow := scrollbackRow - HEIGHT + 1;
      if viewRow < 0 {
        viewRow := 0;
      }
      RefreshScreen();
    }

    /** Any run of print_char calls after clear_screen. */
    method PrintAfterClear(color: Byte, text: seq<Cell>)
      requires Sizes()
      modifies this, buffer, vga
      ensures Shows(text, color)
    {
      ClearScreen(color);
      ghost var done: seq<Cell> := [];
      for i := 0 to |text|
        invariant done == text[..i] && Shows(done, color)
      {
        PrintChar(text[i].ch, text[i].color, done, color);
        done := done + [Cell(text[i].ch, text[i].color)];
      }
      assert done == text;
    }
  }
}
