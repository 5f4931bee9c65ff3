/** Saving a sheet through the write call to the disk and opening it again, on
    values. */
module EditorDisk {
  import opened Bytes
  import opened BdfsModel
  import opened EditorText
  import BdfsRuns
  import Bytecode

  /** What opening a file shows; a file of more than 1920 bytes overruns the
      editor's buffer. */
  datatype Opened = Overrun | Shows(rows: Sheet)

  function Open(fs: Fs, name: Name): Opened {
    var text := Read(fs, name).1;
    if |text| > ROWS * COLS then Overrun else Shows(Visible(LoadFile(text).rows))
  }

  /** The editor overruns on more than 1920 bytes; otherwise row y shows the first
      79 bytes of line y of the file, up to a NUL. */
  lemma OpenShowsLines(fs: Fs, name: Name, y: nat)
    requires y < 24
    ensures var text, r := Read(fs, name).1, Open(fs, name);
            if |text| > 1920 then r == Overrun
            else r.Shows? && r.rows[y] == if y < |Fields(text)| then CStr(Clipped(Fields(text)[y])) else []
  {
    LoadFileIs(Read(fs, name).1, y);
  }

  function SaveThenOpen(fs: Fs, name: Name, rows: Sheet): Opened {
    match Bytecode.CallWrite(fs, name, SavedText(rows))
    case Overflow => Overrun
    case Wrote(after) => Open(after, name)
  }

  /** The file system refuses the write. */
  predicate Refused(fs: Fs, name: Name, data: Buffer) {
    var i := Find(fs.table, name, fs.cwd);
    i == -1 || PlaceWrite(fs.table, i, Sectors(|data|)) < 0
  }

  /** The length field of slot 63 after writing `data` to slot `i`. */
  function LastLength(fs: Fs, i: int, data: Buffer): nat {
    if i == 63 then |data| else fs.table[63].length
  }

  /** What a caller can check before saving: the write fits the call's buffer;
      and either the file system refuses it and the file shows the sheet already,
      or the file does not go to sector 0, or the text survives there. */
  predicate Reopens(fs: Fs, name: Name, rows: Sheet) {
    var data, i := SavedText(rows), Find(fs.table, name, fs.cwd);
    && |name| + |data| + 7 <= Bytecode.BUFFER_SIZE
    && if Refused(fs, name, data) then Open(fs, name) == Shows(Compacted(rows))
       else PlaceWrite(fs.table, i, Sectors(|data|)) > 0 || Survives(data, LE32(LastLength(fs, i, data)))
  }

  lemma WriteAgain(fs: Fs, name: Name, data: Buffer)
    requires !Refused(fs, name, data)
    ensures var after, i := Write(fs, name, data).0, Find(fs.table, name, fs.cwd);
            && Write(fs, name, data).1 >= 0
            && after.table[i].start == PlaceWrite(fs.table, i, Sectors(|data|))
            && after.table[63].length == LastLength(fs, i, data)
  {
  }

  lemma PatchedShowsWhen(rows: Sheet, start: nat, length: nat)
    requires IsText(rows) && length < 0x1_0000
    ensures Visible(LoadFile(BdfsRuns.Patched(SavedText(rows), start, LE32(length))).rows) == Compacted(rows)
            <==> start > 0 || Survives(SavedText(rows), LE32(length))
  {
    var d := SavedText(rows);
    if start > 0 {
      LoadAfterSave(rows);
      CompactedIsText(rows);
      TextIsVisible(Compacted(rows));
    } else {
      SpoiledShowsWhen(rows, BdfsRuns.Patched(d, 0, LE32(length)), LE32(length));
    }
  }

  /** From the rows of the editor to the disk and back: the sheet comes back as
      its non-empty rows moved to the top if and only if `Reopens`. */
  lemma SavedSheetLoads(fs: Fs, contents: BdfsRuns.Contents, path: seq<Slot>, name: Name, rows: Sheet)
    requires BdfsRuns.Inv(fs, contents, path) && IsText(rows)
    ensures SaveThenOpen(fs, name, rows) == Shows(Compacted(rows)) <==> Reopens(fs, name, rows)
  {
    var data, i := SavedText(rows), Find(fs.table, name, fs.cwd);
    if |name| + |data| + 7 <= Bytecode.BUFFER_SIZE && !Refused(fs, name, data) {
      WriteAgain(fs, name, data);
      BdfsRuns.ReadAfterWrite(fs, contents, path, name, data);
      PatchedShowsWhen(rows, PlaceWrite(fs.table, i, Sectors(|data|)), LastLength(fs, i, data));
    }
  }

  // ----- A sheet that the editor cannot save -----

  /** `n` full rows of 79 times the letter a. */
  function FullRows(n: nat): Sheet
    requires n <= ROWS
  {
    seq<Row>(n, _ => seq(COLS - 1, _ => 97)) + EmptyRows(ROWS - n)
  }

  lemma {:induction false} FullRowsSize(n: nat, y: nat)
    requires y <= n < ROWS
    ensures |Saved(FullRows(n), y)| >= COLS * (n - y)
    decreases n - y
  {
    if y < n { FullRowsSize(n, y + 1); }
  }

  /** 13 full rows are too much for the write call, on every disk and for every
      name, although they are text and fit the editor and the file system. */
  lemma TooLargeToSave(fs: Fs, name: Name)
    ensures IsText(FullRows(13)) && SaveThenOpen(fs, name, FullRows(13)) == Overrun
  {
    FullRowsSize(13, 0);
  }
}
