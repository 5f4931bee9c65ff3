/** The save and load loops of the editor, and the way of a text through the
    bytecode interpreter to the disk and back. */
module Editor {
  import opened Bytes
  import opened BdfsModel
  import opened EditorText
  import opened EditorDisk
  import BdfsRuns
  import Bytecode

  /** The 80 bytes of an editor row. */
  type Raw = r: seq<Byte> | |r| == COLS ghost witness Padded([])

  function Padded(s: seq<Byte>): (r: seq<Byte>)
    requires |s| <= COLS
    ensures |r| == COLS
  {
    s + ZeroBytes(COLS - |s|)
  }

  lemma {:induction false} PaddedShows(s: seq<Byte>, n: nat)
    requires n > 0
    ensures CStr(s + ZeroBytes(n)) == CStr(s) && 0 in s + ZeroBytes(n)
  {
    assert (s + ZeroBytes(n))[|s|] == 0;
    if s != [] && s[0] != 0 {
      assert (s + ZeroBytes(n))[1..] == s[1..] + ZeroBytes(n);
      PaddedShows(s[1..], n);
    }
  }

  predicate AllTerminated(raws: seq<Raw>) {
    |raws| == ROWS && forall y :: 0 <= y < ROWS ==> 0 in raws[y]
  }

  /** The C strings in the rows of the buffer. */
  function Strings(raws: seq<Raw>): (r: Sheet)
    requires AllTerminated(raws)
    ensures forall y :: 0 <= y < ROWS ==> r[y] == CStr(raws[y])
  {
    seq<Row>(ROWS, y requires 0 <= y < ROWS => CStr(raws[y]))
  }

  class Cable {
    const buffer: array<Raw>
    const exec: Bytecode.Executor
    var filename: Name
    var cx: nat
    var cy: nat
    var dirty: bool

    constructor (exec: Bytecode.Executor)
      ensures buffer.Length == ROWS && this.exec == exec
    {
      buffer := new Raw[ROWS](_ => Padded([]));
      this.exec := exec;
      filename, cx, cy, dirty := [], 0, 0, false;
    }

    /** memcpy behind the first `len` bytes. */
    static method Append(dest: array<Byte>, len: nat, data: seq<Byte>)
      requires len + |data| <= dest.Length
      modifies dest
      ensures dest[..len + |data|] == old(dest[..len]) + data
    {
      CopyBytes(dest, len, data);
    }

    /** Saves one row. */
    static method SaveRow(dest: array<Byte>, len: nat, raw: Raw, y: nat) returns (next: nat)
      requires 0 in raw && len + |RowBytes(CStr(raw), y)| <= dest.Length
      modifies dest
      ensures next == len + |RowBytes(CStr(raw), y)| && dest[..next] == old(dest[..len]) + RowBytes(CStr(raw), y)
    {
      var n := Bytecode.Executor.StringLength(raw);
      next := len;
      if n > 0 {
        Append(dest, next, raw[..n]);
        next := next + n;
        assert raw[..n] == CStr(raw);
        if y < ROWS - 1 {
          Append(dest, next, [NEWLINE]);
          next := next + 1;
          assert RowBytes(CStr(raw), y) == CStr(raw) + [NEWLINE];
        } else {
          assert RowBytes(CStr(raw), y) == CStr(raw);
        }
      }
    }

    static lemma SaveStep(rows: Sheet, y: nat, sofar: seq<Byte>, text: seq<Byte>)
      requires y < ROWS && sofar + Saved(rows, y) == text
      ensures sofar + RowBytes(rows[y], y) + Saved(rows, y + 1) == text
      ensures |sofar + RowBytes(rows[y], y)| <= |text|
    {
    }

    /** The loop of editor_save_file; the save buffer never overflows. */
    static method CollectRows(raws: seq<Raw>, dest: array<Byte>) returns (len: nat)
      requires AllTerminated(raws) && dest.Length == ROWS * COLS
      modifies dest
      ensures len < ROWS * COLS && dest[..len] == Saved(Strings(raws), 0)
    {
      len := 0;
      ghost var rows, sofar := Strings(raws), [];
      ghost var text := Saved(rows, 0);
      SavedFits(rows, 0);
      for y := 0 to ROWS
        invariant sofar + Saved(rows, y) == text
        invariant len == |sofar| <= dest.Length && dest[..len] == sofar
      {
        SaveStep(rows, y, sofar, text);
        len := SaveRow(dest, len, raws[y], y);
        sofar := sofar + RowBytes(rows[y], y);
      }
      assert sofar == text;
    }

    /** editor_save_file: through the bytecode interpreter to the disk. `ok` is
        false where name and text overflow the interpreter's buffer. */
    method SaveFile(ghost rows: Sheet) returns (ok: bool)
      requires AllTerminated(buffer[..]) && rows == Strings(buffer[..]) && exec.disk.Valid()
      modifies this`dirty, exec`printed, exec.disk.table, exec.disk.storage
      ensures (if ok then Bytecode.Wrote(exec.disk.View()) else Bytecode.Overflow)
              == Bytecode.CallWrite(old(exec.disk.View()), filename, SavedText(rows))
      ensures ok ==> !dirty
    {
      var saved := SaveText(buffer[..]);
      ok := exec.SyscallWrite(filename, saved);
      if ok {
        dirty := false;
      }
    }

    static method SaveText(raws: seq<Raw>) returns (saved: seq<Byte>)
      requires AllTerminated(raws)
      ensures saved == SavedText(Strings(raws))
    {
      var saveBuffer := new Byte[ROWS * COLS](_ => 0);
      var len := CollectRows(raws, saveBuffer);
      saved := saveBuffer[..len];
    }

    /** The buffer holds the rows of `p`, zeros behind each. */
    ghost predicate HoldsPage(p: Page)
      reads this, buffer
    {
      buffer.Length == ROWS && forall y :: 0 <= y < ROWS ==> buffer[y] == Padded(p.rows[y])
    }

    /** The loading loop of editor_init. */
    method LoadText(text: seq<Byte>)
      requires HoldsPage(Page(EmptyRows(ROWS), 0))
      modifies this`cx, this`cy, buffer
      ensures HoldsPage(LoadFile(text))
      ensures cy == LoadFile(text).row && (cy < ROWS ==> cx == |LoadFile(text).rows[cy]|)
    {
      var row, col, i := 0, 0, 0;
      ghost var p := Page(EmptyRows(ROWS), 0);
      assert text[0..] == text;
      while i < |text| && row < ROWS
        invariant 0 <= i <= |text| && HoldsPage(p) && row == p.row
        invariant row < ROWS ==> col == |p.rows[row]|
        invariant Load(p, text[i..]) == LoadFile(text)
        invariant row <= ROWS && forall y :: row < y < ROWS ==> p.rows[y] == []
      {
        ghost var q := LoadByte(p, text[i]);
        assert text[i..][1..] == text[i+1..];
        if text[i] == NEWLINE {
          row, col := row + 1, 0;
        } else if col < COLS - 1 {
          buffer[row] := buffer[row][col := text[i]];
          assert buffer[row] == Padded(q.rows[row]);
          col := col + 1;
        }
        p := q;
        i := i + 1;
      }
      cx, cy := col, row;
    }

    /** memset of the buffer. */
    method ClearRows()
      requires buffer.Length == ROWS
      modifies buffer
      ensures HoldsPage(Page(EmptyRows(ROWS), 0))
    {
      for y := 0 to ROWS
        invariant forall k :: 0 <= k < y ==> buffer[k] == Padded([])
      {
        buffer[y] := Padded([]);
      }
    }

    /** editor_init. `ok` is false where the file overruns the local buffer. */
    method InitEditor(name: Name) returns (ok: bool)
      requires buffer.Length == ROWS && exec.disk.Valid()
      modifies this, buffer
      ensures ok <==> Open(old(exec.disk.View()), name).Shows?
      ensures ok ==> HoldsPage(LoadFile(Read(old(exec.disk.View()), name).1))
      ensures !dirty && filename == if |name| < 31 then name else name[..31]
    {
      cx, cy, dirty := 0, 0, false;
      filename := if |name| < 31 then name else name[..31];
      ClearRows();
      var content := new Byte[ROWS * COLS](_ => 0);
      ghost var text := Read(exec.disk.View(), name).1;
      var rc, n;
      rc, n, ok := exec.disk.ReadFile(name, content);
      if rc == 0 && ok {
        LoadText(content[..n]);
        assert HoldsPage(LoadFile(text));
      } else {
        assert rc < 0 ==> text == [];
      }
    }

    /** The buffer shows the strings in the rows of the page it holds. */
    lemma HoldsShows(p: Page)
      requires HoldsPage(p)
      ensures AllTerminated(buffer[..]) && Strings(buffer[..]) == Visible(p.rows)
    {
      forall y | 0 <= y < ROWS ensures 0 in buffer[y] && CStr(buffer[y]) == CStr(p.rows[y]) {
        PaddedShows(p.rows[y], COLS - |p.rows[y]|);
      }
    }

    /** Saving and opening the file again: the buffer then holds the non-empty
        rows of before, moved to the top, if and only if `Reopens`. */
    method SaveAndReopen(ghost rows: Sheet, ghost contents: BdfsRuns.Contents, ghost path: seq<Slot>)
      returns (ok: bool)
      requires buffer.Length == ROWS && exec.disk.Valid() && |filename| <= 31
      requires AllTerminated(buffer[..]) && rows == Strings(buffer[..]) && IsText(rows)
      requires BdfsRuns.Inv(exec.disk.View(), contents, path)
      modifies this, buffer, exec`printed, exec.disk.table, exec.disk.storage
      ensures ok ==> AllTerminated(buffer[..])
      ensures ok && Strings(buffer[..]) == Compacted(rows) <==>
              Reopens(old(exec.disk.View()), old(filename), rows)
    {
      ghost var fs := exec.disk.View();
      SavedSheetLoads(fs, contents, path, filename, rows);
      ok := SaveFile(rows);
      if ok {
        ghost var after := exec.disk.View();
        var name := filename;
        ok := InitEditor(name);
        if ok { HoldsShows(LoadFile(Read(after, name).1)); }
      }
    }
  }
}
