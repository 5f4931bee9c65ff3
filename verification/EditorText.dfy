/** What the editor saves and loads, on values. */
module EditorText {
  import opened Bytes

  const ROWS: nat := 24
  const COLS: nat := 80
  const NEWLINE: Byte := 10

  /** The bytes in use of an editor row: at least one of the 80 is left. */
  type Row = s: seq<Byte> | |s| < COLS witness []

  type Sheet = rows: seq<Row> | |rows| == ROWS ghost witness EmptyRows(ROWS)

  function EmptyRows(n: nat): seq<Row> { seq(n, _ => []) }

  /** The rows are C strings without newlines. */
  predicate IsText(rows: seq<Row>) {
    forall y :: 0 <= y < |rows| ==> 0 !in rows[y] && NEWLINE !in rows[y]
  }

  /** What is saved of row `y`: nothing if it is empty, and no newline after
      the last row. */
  function RowBytes(row: Row, y: nat): seq<Byte> {
    if row == [] then [] else row + (if y < ROWS - 1 then [NEWLINE] else [])
  }

  /** The saved bytes of the rows from `y` on. */
  function Saved(rows: Sheet, y: nat): seq<Byte>
    requires y <= ROWS
    decreases |rows| - y
  {
    if y == ROWS then [] else RowBytes(rows[y], y) + Saved(rows, y + 1)
  }

  /** Rows filled so far, and the row that comes next. */
  datatype Page = Page(rows: Sheet, row: nat)

  /** One byte of a file: a newline moves on, a byte past column 79 is dropped. */
  function LoadByte(p: Page, c: Byte): Page
    requires p.row < ROWS
  {
    if c == NEWLINE then p.(row := p.row + 1)
    else if |p.rows[p.row]| < COLS - 1 then p.(rows := p.rows[p.row := p.rows[p.row] + [c]])
    else p
  }

  function Load(p: Page, text: seq<Byte>): Page
    decreases |text|
  {
    if text == [] || p.row >= ROWS then p else Load(LoadByte(p, text[0]), text[1..])
  }

  function LoadFile(text: seq<Byte>): Page { Load(Page(EmptyRows(ROWS), 0), text) }

  /** A text split at its newlines. */
  function Fields(text: seq<Byte>): (f: seq<seq<Byte>>)
    ensures f != []
  {
    if text == [] then [[]]
    else
      var f := Fields(text[1..]);
      if text[0] == 10 then [[]] + f else [[text[0]] + f[0]] + f[1..]
  }

  /** The lines of a text, with newlines between them. */
  function JoinLines(lines: seq<seq<Byte>>): seq<Byte> {
    if lines == [] then [] else if |lines| == 1 then lines[0] else lines[0] + [10] + JoinLines(lines[1..])
  }

  /** The fields are its lines. */
  lemma {:induction false} FieldsAreLines(text: seq<Byte>, k: nat)
    ensures Fields(text) != [] && JoinLines(Fields(text)) == text
    ensures k < |Fields(text)| ==> 10 !in Fields(text)[k]
  {
    if text != [] {
      var f := Fields(text[1..]);
      FieldsAreLines(text[1..], if text[0] == 10 && k > 0 then k - 1 else k);
      assert text == [text[0]] + text[1..];
      if text[0] == 10 { assert Fields(text)[1..] == f; }
      else { assert Fields(text)[1..] == f[1..]; }
    }
  }

  /** At most 79 bytes of a field have room in a row. */
  function Clipped(s: seq<Byte>): Row { if |s| <= 79 then s else s[..79] }

  lemma ClipOnce(cur: Row, c: Byte, f: seq<Byte>)
    ensures Clipped((if |cur| < COLS - 1 then cur + [c] else cur) + f) == Clipped(cur + ([c] + f))
  {
    assert cur + [c] + f == cur + ([c] + f);
    if |cur| == 79 { assert (cur + f)[..79] == cur == (cur + ([c] + f))[..79]; }
  }

  /** Row `y` once the fields have been loaded behind what the current row holds
      already. */
  function FieldRow(p: Page, f: seq<seq<Byte>>, y: nat): Row
    requires f != [] && y < ROWS
  {
    if y < p.row then p.rows[y]
    else if y == p.row then Clipped(p.rows[y] + f[0])
    else if y - p.row < |f| then Clipped(f[y - p.row])
    else []
  }

  predicate BlankBelow(p: Page) { forall k :: p.row < k < ROWS ==> p.rows[k] == [] }

  lemma NewlineStep(p: Page, f: seq<seq<Byte>>, y: nat)
    requires f != [] && p.row + 1 < ROWS && y < ROWS && BlankBelow(p)
    ensures FieldRow(LoadByte(p, NEWLINE), f, y) == FieldRow(p, [[]] + f, y)
  {
    assert [] + f[0] == f[0] && p.rows[p.row] + [] == p.rows[p.row];
  }

  lemma LastNewline(p: Page, f: seq<seq<Byte>>, y: nat)
    requires f != [] && p.row + 1 == ROWS && y < ROWS
    ensures p.rows[y] == FieldRow(p, [[]] + f, y)
  {
    assert p.rows[p.row] + [] == p.rows[p.row];
  }

  lemma ByteStep(p: Page, c: Byte, f: seq<seq<Byte>>, y: nat)
    requires f != [] && p.row < ROWS && y < ROWS && c != NEWLINE
    ensures FieldRow(LoadByte(p, c), f, y) == FieldRow(p, [[c] + f[0]] + f[1..], y)
  {
    ClipOnce(p.rows[p.row], c, f[0]);
  }

  lemma {:induction false} LoadFields(p: Page, text: seq<Byte>, y: nat)
    requires p.row < ROWS && y < ROWS && BlankBelow(p)
    ensures Load(p, text).rows[y] == FieldRow(p, Fields(text), y)
    ensures Load(p, text).row == if p.row + |Fields(text)| <= ROWS then p.row + |Fields(text)| - 1 else ROWS
    decreases |text|
  {
    if text == [] {
      assert p.rows[p.row] + [] == p.rows[p.row];
    } else {
      var q, f := LoadByte(p, text[0]), Fields(text[1..]);
      if text[0] != NEWLINE {
        LoadFields(q, text[1..], y);
        ByteStep(p, text[0], f, y);
      } else if q.row < ROWS {
        LoadFields(q, text[1..], y);
        NewlineStep(p, f, y);
      } else {
        LastNewline(p, f, y);
      }
    }
  }

  /** Row y of a loaded file holds the first 79 bytes of line y of the text,
      whatever the text is; the cursor is in its last line, or behind the rows. */
  lemma LoadFileIs(text: seq<Byte>, y: nat)
    requires y < ROWS
    ensures LoadFile(text).rows[y] == if y < |Fields(text)| then Clipped(Fields(text)[y]) else []
    ensures LoadFile(text).row == if |Fields(text)| <= 24 then |Fields(text)| - 1 else 24
  {
    LoadFields(Page(EmptyRows(ROWS), 0), text, y);
    assert [] + Fields(text)[0] == Fields(text)[0];
  }

  /** The non-empty rows from `y` on, each with a newline. */
  function Joined(rows: Sheet, y: nat): seq<Byte>
    requires y <= ROWS
    decreases |rows| - y
  {
    if y == ROWS then [] else (if rows[y] == [] then [] else rows[y] + [10]) + Joined(rows, y + 1)
  }

  /** They are saved like that, but for the newline of the very last row. */
  lemma {:induction false} SavedIsJoined(rows: Sheet, y: nat)
    requires y < ROWS
    ensures Saved(rows, y) + (if rows[23] == [] then [] else [10]) == Joined(rows, y)
    decreases ROWS - y
  {
    if y < ROWS - 1 {
      SavedIsJoined(rows, y + 1);
      Regroup(RowBytes(rows[y], y), Saved(rows, y + 1), if rows[23] == [] then [] else [10]);
    } else {
      assert Saved(rows, ROWS) == [] && Joined(rows, ROWS) == [];
    }
  }

  lemma Regroup(a: seq<Byte>, b: seq<Byte>, c: seq<Byte>)
    ensures a + b + c == a + (b + c)
  {
  }

  /** The non-empty rows from `y` on. */
  function Kept(rows: seq<Row>, y: nat): (r: seq<Row>)
    requires y <= |rows|
    ensures |r| <= |rows| - y
    decreases |rows| - y
  {
    if y == |rows| then []
    else (if rows[y] == [] then [] else [rows[y]]) + Kept(rows, y + 1)
  }

  /** The non-empty rows moved to the top. */
  function Compacted(rows: Sheet): Sheet {
    Kept(rows, 0) + EmptyRows(ROWS - |Kept(rows, 0)|)
  }

  function AddToRow(p: Page, line: seq<Byte>): Page
    requires p.row < ROWS && |p.rows[p.row]| + |line| < COLS
  {
    p.(rows := p.rows[p.row := p.rows[p.row] + line])
  }

  lemma {:induction false} LoadLine(p: Page, line: seq<Byte>, rest: seq<Byte>)
    requires p.row < ROWS && NEWLINE !in line && |p.rows[p.row]| + |line| < COLS
    ensures Load(p, line + rest) == Load(AddToRow(p, line), rest)
    decreases |line|
  {
    if line == [] {
      assert line + rest == rest && p.rows[p.row] + line == p.rows[p.row];
      assert p.rows[p.row := p.rows[p.row]] == p.rows;
    } else {
      var q := LoadByte(p, line[0]);
      assert (line + rest)[1..] == line[1..] + rest;
      LoadLine(q, line[1..], rest);
      assert p.rows[p.row] + [line[0]] + line[1..] == p.rows[p.row] + line;
      assert AddToRow(q, line[1..]).rows == AddToRow(p, line).rows;
    }
  }

  /** A page whose first rows are `done` and whose other rows are empty. */
  function Filled(done: seq<Row>): Page
    requires |done| <= ROWS
  {
    Page(done + EmptyRows(ROWS - |done|), |done|)
  }

  lemma FillRow(done: seq<Row>, line: Row)
    requires |done| < ROWS
    ensures Filled(done).rows[|done|] == []
    ensures AddToRow(Filled(done), line).rows == Filled(done + [line]).rows
  {
    assert [] + line == line;
  }

  /** Loading a saved row and its newline appends the row. */
  lemma LoadRow(done: seq<Row>, line: Row, rest: seq<Byte>)
    requires |done| < ROWS && NEWLINE !in line
    ensures Load(Filled(done), line + [NEWLINE] + rest) == Load(Filled(done + [line]), rest)
  {
    var more := [NEWLINE] + rest;
    FillRow(done, line);
    assert line + [NEWLINE] + rest == line + more;
    LoadLine(Filled(done), line, more);
    assert more[1..] == rest && LoadByte(AddToRow(Filled(done), line), NEWLINE) == Filled(done + [line]);
  }

  /** With `done` filled in, loading the rest of the sheet appends what is kept
      of it. */
  lemma {:induction false} LoadSaved(rows: Sheet, y: nat, done: seq<Row>)
    requires IsText(rows) && y <= ROWS && |done| <= y
    ensures Load(Filled(done), Saved(rows, y)).rows == Filled(done + Kept(rows, y)).rows
    decreases ROWS - y
  {
    if y == ROWS {
      assert Kept(rows, ROWS) == [] && Saved(rows, ROWS) == [];
      assert done + [] == done;
    } else if rows[y] == [] {
      LoadSaved(rows, y + 1, done);
      assert Saved(rows, y) == Saved(rows, y + 1) && Kept(rows, y) == Kept(rows, y + 1);
    } else if y < ROWS - 1 {
      LoadSaved(rows, y + 1, done + [rows[y]]);
      NextRow(rows, y);
      MiddleRow(done, rows[y], Saved(rows, y), Saved(rows, y + 1), Kept(rows, y), Kept(rows, y + 1));
    } else {
      LastRow(rows, done);
    }
  }

  lemma NextRow(rows: Sheet, y: nat)
    requires y < ROWS - 1 && rows[y] != []
    ensures Saved(rows, y) == rows[y] + [NEWLINE] + Saved(rows, y + 1)
    ensures Kept(rows, y) == [rows[y]] + Kept(rows, y + 1)
  {
  }

  lemma MiddleRow(done: seq<Row>, line: Row, text: seq<Byte>, rest: seq<Byte>, kept: seq<Row>, left: seq<Row>)
    requires |done| < ROWS && NEWLINE !in line && text == line + [NEWLINE] + rest && kept == [line] + left
    ensures Load(Filled(done), text) == Load(Filled(done + [line]), rest)
    ensures done + kept == done + [line] + left
  {
    LoadRow(done, line, rest);
  }

  lemma LastRow(rows: Sheet, done: seq<Row>)
    requires IsText(rows) && |done| < ROWS && rows[ROWS - 1] != []
    ensures Load(Filled(done), Saved(rows, ROWS - 1)).rows == Filled(done + Kept(rows, ROWS - 1)).rows
  {
    var line := rows[ROWS - 1];
    assert Saved(rows, ROWS) == [] && Kept(rows, ROWS) == [];
    assert Saved(rows, ROWS - 1) == line + [] && Kept(rows, ROWS - 1) == [line];
    FillRow(done, line);
    LoadLine(Filled(done), line, []);
  }

  lemma StartIsFilled()
    ensures Page(EmptyRows(ROWS), 0) == Filled([])
  {
    assert [] + EmptyRows(ROWS) == EmptyRows(ROWS);
  }

  /** Loading what was saved gives the non-empty rows moved to the top. */
  lemma LoadAfterSave(rows: Sheet)
    requires IsText(rows)
    ensures LoadFile(Saved(rows, 0)).rows == Compacted(rows)
  {
    LoadSaved(rows, 0, []);
    StartIsFilled();
    assert [] + Kept(rows, 0) == Kept(rows, 0);
  }

  lemma {:induction false} KeptText(rows: seq<Row>, y: nat)
    requires y <= |rows| && IsText(rows)
    ensures IsText(Kept(rows, y)) && forall k :: 0 <= k < |Kept(rows, y)| ==> Kept(rows, y)[k] != []
    decreases |rows| - y
  {
    if y < |rows| { KeptText(rows, y + 1); }
  }

  lemma {:induction false} KeptOfKept(full: seq<Row>, n: nat, y: nat)
    requires y <= |full| && forall k :: 0 <= k < |full| ==> full[k] != []
    ensures Kept(full + EmptyRows(n), y) == full[y..]
    decreases |full| - y
  {
    if y < |full| { KeptOfKept(full, n, y + 1); } else { KeptOfEmpty(full + EmptyRows(n), y); }
  }

  lemma {:induction false} KeptOfEmpty(rows: seq<Row>, y: nat)
    requires y <= |rows| && forall k :: y <= k < |rows| ==> rows[k] == []
    ensures Kept(rows, y) == []
    decreases |rows| - y
  {
    if y < |rows| { KeptOfEmpty(rows, y + 1); }
  }

  /** Saving and loading a second time changes nothing. */
  lemma LoadAfterSaveIsIdempotent(rows: Sheet)
    requires IsText(rows)
    ensures IsText(Compacted(rows))
    ensures LoadFile(Saved(Compacted(rows), 0)).rows == Compacted(rows)
  {
    var kept := Kept(rows, 0);
    KeptText(rows, 0);
    KeptOfKept(kept, ROWS - |kept|, 0);
    assert kept[0..] == kept;
    LoadAfterSave(Compacted(rows));
  }

  /** The saved text always fits the 1920 bytes of the editor, with one to spare. */
  lemma {:induction false} SavedFits(rows: Sheet, y: nat)
    requires y <= ROWS
    ensures |Saved(rows, y)| <= if y == ROWS then 0 else COLS * (ROWS - y) - 1
    decreases ROWS - y
  {
    if y < ROWS { SavedFits(rows, y + 1); }
  }

  /** The text as it is handed to the file system. */
  function SavedText(rows: Sheet): (b: seq<Byte>)
    ensures |b| < ROWS * COLS
  {
    SavedFits(rows, 0);
    Saved(rows, 0)
  }

  // ----- Text whose first bytes were overwritten -----

  /** The C strings in loaded rows: a file may hold NULs. */
  function Visible(rows: Sheet): (r: Sheet)
    ensures forall y :: 0 <= y < ROWS ==> r[y] == CStr(rows[y])
  {
    seq<Row>(ROWS, y requires 0 <= y < ROWS => CStr(rows[y]))
  }

  lemma {:induction false} WholeString(s: seq<Byte>)
    requires 0 !in s
    ensures CStr(s) == s
  {
    if s != [] { WholeString(s[1..]); }
  }

  lemma {:induction false} StringEnds(s: seq<Byte>)
    requires 0 !in s
    ensures CStr(s + [0]) == s
  {
    if s != [] {
      assert (s + [0])[1..] == s[1..] + [0];
      StringEnds(s[1..]);
    }
  }

  lemma TextIsVisible(rows: Sheet)
    requires IsText(rows)
    ensures Visible(rows) == rows
  {
    forall y | 0 <= y < ROWS ensures Visible(rows)[y] == rows[y] { WholeString(rows[y]); }
  }

  lemma CompactedIsText(rows: Sheet)
    requires IsText(rows)
    ensures IsText(Compacted(rows))
  {
    KeptText(rows, 0);
  }

  /** What the first row shows of a text that starts with these bytes. */
  predicate StartsRow(text: seq<Byte>, row: Row) {
    if text == [] || text[0] == NEWLINE || text[0] == 0 then row == []
    else
      && row != [] && row[0] == text[0]
      && if |text| == 1 || text[1] == NEWLINE || text[1] == 0 then row == [text[0]]
         else |row| >= 2 && row[1] == text[1]
  }

  lemma {:induction false} LoadExtends(p: Page, text: seq<Byte>, y: nat)
    requires y < ROWS
    ensures p.rows[y] <= Load(p, text).rows[y]
    ensures y < p.row || text == [] ==> p.rows[y] == Load(p, text).rows[y]
    decreases |text|
  {
    if text != [] && p.row < ROWS { LoadExtends(LoadByte(p, text[0]), text[1..], y); }
  }

  lemma ShownPrefix(a: seq<Byte>, row: seq<Byte>)
    requires a <= row && |a| <= 2
    ensures a != [] && a[0] == 0 ==> CStr(row) == []
    ensures a != [] && a[0] != 0 ==> CStr(row) != [] && CStr(row)[0] == a[0]
    ensures |a| == 2 && a[0] != 0 && a[1] == 0 ==> CStr(row) == [a[0]]
    ensures |a| == 2 && a[0] != 0 && a[1] != 0 ==> |CStr(row)| >= 2 && CStr(row)[1] == a[1]
  {
    if |a| == 2 { assert row[1..][0] == a[1]; }
  }

  lemma FirstRowShows(text: seq<Byte>)
    ensures StartsRow(text, Visible(LoadFile(text).rows)[0])
  {
    var p := Page(EmptyRows(ROWS), 0);
    if text != [] {
      var q := LoadByte(p, text[0]);
      LoadExtends(q, text[1..], 0);
      if text[0] != NEWLINE {
        assert q.rows[0] == [text[0]];
        ShownPrefix([text[0]], LoadFile(text).rows[0]);
        if |text| > 1 { SecondByteShows(q, text); } else if text[0] != 0 { WholeString([text[0]]); }
      }
    }
  }

  lemma SecondByteShows(q: Page, text: seq<Byte>)
    requires |text| > 1 && q.row == 0 && q.rows[0] == [text[0]] && LoadFile(text) == Load(q, text[1..])
    ensures text[0] != 0 ==>
              var row := CStr(LoadFile(text).rows[0]);
              if text[1] == NEWLINE || text[1] == 0 then row == [text[0]] else |row| >= 2 && row[1] == text[1]
  {
    var r := LoadByte(q, text[1]);
    assert text[1..][0] == text[1];
    LoadExtends(r, text[1..][1..], 0);
    if text[1] == NEWLINE {
      if text[0] != 0 { WholeString([text[0]]); }
    } else {
      assert r.rows[0] == [text[0], text[1]];
      ShownPrefix([text[0], text[1]], LoadFile(text).rows[0]);
    }
  }

  /** Characters that a text can show. */
  function Ink(text: seq<Byte>): nat {
    if text == [] then 0 else (if text[0] == NEWLINE || text[0] == 0 then 0 else 1) + Ink(text[1..])
  }

  lemma {:induction false} InkAppend(a: seq<Byte>, b: seq<Byte>)
    ensures Ink(a + b) == Ink(a) + Ink(b)
  {
    if a == [] {
      assert a + b == b;
    } else {
      assert (a + b)[1..] == a[1..] + b;
      InkAppend(a[1..], b);
    }
  }

  lemma {:induction false} InkOfRow(row: seq<Byte>)
    requires 0 !in row && NEWLINE !in row
    ensures Ink(row) == |row|
  {
    if row != [] { InkOfRow(row[1..]); }
  }

  /** Characters that rows show. */
  function Total(rows: seq<Row>): nat {
    if rows == [] then 0 else |CStr(rows[0])| + Total(rows[1..])
  }

  lemma {:induction false} TotalAppend(a: seq<Row>, b: seq<Row>)
    ensures Total(a + b) == Total(a) + Total(b)
  {
    if a == [] {
      assert a + b == b;
    } else {
      assert (a + b)[1..] == a[1..] + b;
      TotalAppend(a[1..], b);
    }
  }

  lemma {:induction false} TotalUpdate(rows: seq<Row>, y: nat, row: Row)
    requires y < |rows|
    ensures Total(rows[y := row]) == Total(rows) - |CStr(rows[y])| + |CStr(row)|
  {
    if y > 0 {
      assert rows[y := row][1..] == rows[1..][y - 1 := row];
      TotalUpdate(rows[1..], y - 1, row);
    } else {
      assert rows[y := row][1..] == rows[1..];
    }
  }

  lemma {:induction false} TotalEmpty(n: nat)
    ensures Total(EmptyRows(n)) == 0
  {
    if n > 0 {
      assert EmptyRows(n)[1..] == EmptyRows(n - 1);
      TotalEmpty(n - 1);
    }
  }

  lemma {:induction false} OneMoreShown(row: seq<Byte>, c: Byte)
    ensures |CStr(row + [c])| <= |CStr(row)| + (if c == 0 then 0 else 1)
  {
    if row != [] {
      assert (row + [c])[1..] == row[1..] + [c];
      OneMoreShown(row[1..], c);
    }
  }

  /** Loading shows no more than the text has to show. */
  lemma {:induction false} LoadInk(p: Page, text: seq<Byte>)
    ensures Total(Load(p, text).rows) <= Total(p.rows) + Ink(text)
    decreases |text|
  {
    if text != [] && p.row < ROWS {
      LoadInk(LoadByte(p, text[0]), text[1..]);
      OneMoreShown(p.rows[p.row], text[0]);
      if |p.rows[p.row]| < COLS - 1 { TotalUpdate(p.rows, p.row, p.rows[p.row] + [text[0]]); }
    }
  }

  lemma {:induction false} TotalVisible(rows: seq<Row>, shown: seq<Row>)
    requires |rows| == |shown| && forall y :: 0 <= y < |rows| ==> shown[y] == CStr(rows[y])
    ensures Total(shown) == Total(rows)
  {
    if rows != [] {
      WholeString(shown[0]);
      TotalVisible(rows[1..], shown[1..]);
    }
  }

  lemma {:induction false} SavedInk(rows: Sheet, y: nat)
    requires y <= ROWS && IsText(rows)
    ensures Ink(Saved(rows, y)) == Total(Kept(rows, y))
    decreases |rows| - y
  {
    if y < ROWS {
      SavedInk(rows, y + 1);
      var row := rows[y];
      InkAppend(RowBytes(row, y), Saved(rows, y + 1));
      InkAppend(row, [NEWLINE]);
      InkOfRow(row);
      WholeString(row);
      TotalAppend([row], Kept(rows, y + 1));
      assert row == [] ==> Kept(rows, y) == Kept(rows, y + 1);
      assert row + [] == row;
    }
  }

  lemma CompactedInk(rows: Sheet)
    requires IsText(rows)
    ensures Total(Compacted(rows)) == Ink(Saved(rows, 0))
  {
    SavedInk(rows, 0);
    TotalAppend(Kept(rows, 0), EmptyRows(ROWS - |Kept(rows, 0)|));
    TotalEmpty(ROWS - |Kept(rows, 0)|);
  }

  /** Saved text has no NUL, does not start with a newline, and has no two
      newlines in a row. */
  predicate SavedShape(text: seq<Byte>) {
    && 0 !in text && (text != [] ==> text[0] != NEWLINE)
    && forall k :: 0 <= k < |text| - 1 && text[k] == NEWLINE ==> text[k + 1] != NEWLINE
  }

  lemma {:induction false} SavedHasShape(rows: Sheet, y: nat)
    requires y <= ROWS && IsText(rows)
    ensures SavedShape(Saved(rows, y))
    decreases |rows| - y
  {
    if y < ROWS {
      SavedHasShape(rows, y + 1);
      if rows[y] != [] { RowShape(rows[y], y, Saved(rows, y + 1)); }
    }
  }

  lemma RowShape(row: Row, y: nat, rest: seq<Byte>)
    requires 0 !in row && NEWLINE !in row && row != [] && SavedShape(rest)
    ensures SavedShape(RowBytes(row, y) + rest)
  {
  }

  /** The spoiled text `u` shows as the saved text `d` if it has at most three
      bytes, the last of three being a newline, and the two bytes that can
      survive do; a newline after one byte may have become a NUL. */
  predicate Survives(d: seq<Byte>, spill: seq<Byte>)
    requires |spill| == 4
  {
    || d == []
    || (&& |d| <= 3 && d[0] == spill[0]
        && (|d| == 2 ==> d[1] == spill[1] || (d[1] == NEWLINE && spill[1] == 0))
        && (|d| == 3 ==> d[1] == spill[1] && d[2] == NEWLINE))
  }

  /** `u` is `d` with the bytes of a small length field over its start. */
  predicate Spoiled(d: seq<Byte>, u: seq<Byte>, spill: seq<Byte>) {
    && |spill| == 4 && spill[2] == spill[3] == 0 && |u| == |d|
    && (forall k :: 0 <= k < 4 && k < |u| ==> u[k] == spill[k])
    && (|u| >= 4 ==> u[4..] == d[4..])
  }

  /** Three bytes or more lose too much ink, but for one case. */
  lemma InkLost(d: seq<Byte>, u: seq<Byte>, spill: seq<Byte>)
    requires Spoiled(d, u, spill) && SavedShape(d) && |d| >= 3 && Ink(u) >= Ink(d)
    requires u[0] == d[0] && (if d[1] == NEWLINE then u[1] == NEWLINE || u[1] == 0 else u[1] == d[1])
    ensures |d| == 3 && d[2] == NEWLINE && d[1] == u[1]
  {
    var n := if |d| < 4 then 3 else 4;
    assert d == d[..n] + d[n..] && u == u[..n] + u[n..] && u[n..] == d[n..];
    InkAppend(d[..n], d[n..]);
    InkAppend(u[..n], u[n..]);
    InkOfFour(d[..n]);
    InkOfFour(u[..n]);
  }

  function Mark(c: Byte): nat { if c == NEWLINE || c == 0 then 0 else 1 }

  lemma InkOfFour(t: seq<Byte>)
    requires 3 <= |t| <= 4
    ensures Ink(t) == Mark(t[0]) + Mark(t[1]) + Mark(t[2]) + if |t| == 4 then Mark(t[3]) else 0
  {
    assert t[1..][1..] == t[2..] && t[2..][1..] == t[3..];
    assert Ink(t[3..]) == if |t| == 4 then Mark(t[3]) else 0;
    assert Ink(t[2..]) == Mark(t[2]) + Ink(t[3..]);
    assert Ink(t[1..]) == Mark(t[1]) + Ink(t[2..]);
  }

  lemma {:induction false} LoadOneMore(p: Page, t: seq<Byte>, c: Byte)
    ensures Load(p, t + [c]) == var q := Load(p, t); if q.row < ROWS then LoadByte(q, c) else q
    decreases |t|
  {
    if t == [] {
      assert t + [c] == [c];
      assert p.row < ROWS ==> Load(p, [c]) == Load(LoadByte(p, c), []);
    } else if p.row < ROWS {
      assert (t + [c])[1..] == t[1..] + [c];
      LoadOneMore(LoadByte(p, t[0]), t[1..], c);
    }
  }

  /** A NUL at the end shows like a newline at the end. */
  lemma NulForNewline(t: seq<Byte>)
    requires IsText(LoadFile(t).rows)
    ensures Visible(LoadFile(t + [0]).rows) == Visible(LoadFile(t + [NEWLINE]).rows) == LoadFile(t).rows
  {
    var start := Page(EmptyRows(ROWS), 0);
    var q := LoadFile(t);
    LoadOneMore(start, t, 0);
    LoadOneMore(start, t, NEWLINE);
    TextIsVisible(q.rows);
    if q.row < ROWS { StringEnds(q.rows[q.row]); }
  }

  /** A spoiled text shows the saved sheet if and only if it survives. */
  lemma SpoiledShowsWhen(rows: Sheet, u: seq<Byte>, spill: seq<Byte>)
    requires IsText(rows) && Spoiled(Saved(rows, 0), u, spill)
    ensures Visible(LoadFile(u).rows) == Compacted(rows) <==> Survives(Saved(rows, 0), spill)
  {
    var d := Saved(rows, 0);
    LoadAfterSave(rows);
    CompactedIsText(rows);
    SavedHasShape(rows, 0);
    if Visible(LoadFile(u).rows) == Compacted(rows) {
      ShownSurvives(rows, d, u, spill);
    }
    if Survives(d, spill) {
      SurvivorShows(d, u, spill);
    }
  }

  lemma ShownSurvives(rows: Sheet, d: seq<Byte>, u: seq<Byte>, spill: seq<Byte>)
    requires IsText(rows) && IsText(Compacted(rows)) && d == Saved(rows, 0) && LoadFile(d).rows == Compacted(rows)
    requires Spoiled(d, u, spill) && SavedShape(d) && Visible(LoadFile(u).rows) == Compacted(rows)
    ensures Survives(d, spill)
  {
    TextIsVisible(Compacted(rows));
    FirstRowShows(d);
    FirstRowShows(u);
    if |d| >= 3 {
      CompactedInk(rows);
      TotalVisible(LoadFile(u).rows, Compacted(rows));
      LoadInk(Page(EmptyRows(ROWS), 0), u);
      TotalEmpty(ROWS);
      InkLost(d, u, spill);
    }
  }

  lemma SurvivorShows(d: seq<Byte>, u: seq<Byte>, spill: seq<Byte>)
    requires Spoiled(d, u, spill) && SavedShape(d) && Survives(d, spill) && IsText(LoadFile(d).rows)
    ensures Visible(LoadFile(u).rows) == LoadFile(d).rows
  {
    TextIsVisible(LoadFile(d).rows);
    if u != d {
      var n := |d| - 1;
      var t := d[..n];
      assert d == t + [NEWLINE] && u == t + [0];
      LoadOneMore(Page(EmptyRows(ROWS), 0), t, NEWLINE);
      assert LoadFile(d).rows == LoadFile(t).rows;
      NulForNewline(t);
    }
  }
}
