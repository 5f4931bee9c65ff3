/** BDFS as it runs: static arrays that the operations change in place, each
    operation proved to do what the model's function says. */
module Bdfs {
  import opened Bytes
  import opened BdfsModel

  /** `a` comes before `b` in the order of their bytes: at the first place where
      they differ it has ended or has the smaller byte. */
  predicate Before(a: seq<Byte>, b: seq<Byte>) {
    exists k :: 0 <= k < |b| && DiffersAt(a, b, k) && (k == |a| || a[k] < b[k])
  }

  predicate DiffersAt(a: seq<Byte>, b: seq<Byte>, k: nat) {
    k <= |a| && k <= |b| && a[..k] == b[..k] && (k < |a| && k < |b| ==> a[k] != b[k])
  }

  lemma SamePrefix(a: seq<Byte>, b: seq<Byte>, k: nat)
    requires k <= |a| && k <= |b| && a[..k] == b[..k]
    ensures forall i :: 0 <= i < k ==> a[i] == b[i]
  {
    assert forall i :: 0 <= i < k ==> a[i] == a[..k][i] && b[i] == b[..k][i];
  }

  lemma DiffersOnce(a: seq<Byte>, b: seq<Byte>, j: nat, k: nat)
    requires DiffersAt(a, b, j) && DiffersAt(a, b, k)
    ensures j == k
  {
    SamePrefix(a, b, j);
    SamePrefix(a, b, k);
  }

  /** strcmp: zero for equal strings, otherwise the sign tells the order. */
  method StrCompare(raw: seq<Byte>, name: Name) returns (d: int)
    requires 0 in raw
    ensures d == 0 <==> CStr(raw) == name
    ensures d < 0 <==> Before(CStr(raw), name)
  {
    var i := 0;
    ghost var s := CStr(raw);
    while raw[i] != 0 && raw[i] == (if i < |name| then name[i] else 0)
      invariant i <= |s| && i <= |name| && s[..i] == name[..i]
      decreases |s| - i
    {
      i := i + 1;
    }
    d := raw[i] as int - (if i < |name| then name[i] as int else 0);
    assert raw[i] == 0 <==> i == |s|;
    assert i == |s| && i == |name| ==> s == name;
    forall k: nat | DiffersAt(s, name, k) ensures k == i { DiffersOnce(s, name, k, i); }
  }

  /** Zeros, then the magic number over them, then the table: the image, and
      the old bytes behind it. */
  lemma SyncLayout(before: Storage, cleared: Storage, magic: seq<Byte>, table: seq<Byte>)
    requires |magic| == 4 && |table| == IMAGE_SIZE - 4
    requires cleared[DATA_START..] == before[DATA_START..]
    ensures Splice(Splice(cleared, 0, magic), 4, table) == magic + table + before[IMAGE_SIZE..]
  {
    assert cleared[IMAGE_SIZE..] == cleared[DATA_START..][4..] == before[IMAGE_SIZE..];
  }

  class Disk {
    const table: array<Entry>
    const storage: array<Byte>
    var cwd: Slot

    ghost predicate Valid()
      reads this
    {
      table.Length == MAX_FILES && storage.Length == STORAGE_SIZE
    }

    ghost function View(): Fs
      requires Valid()
      reads this, table, storage
    {
      Fs(table[..], storage[..], cwd)
    }

    constructor ()
      ensures Valid() && fresh(table) && fresh(storage)
      ensures View() == Fs(BlankTable(), ZeroBytes(STORAGE_SIZE), 0)
    {
      table := new Entry[MAX_FILES](_ => Blank());
      storage := new Byte[STORAGE_SIZE](_ => 0);
      cwd := 0;
      new;
      assert table[..] == BlankTable() && storage[..] == ZeroBytes(STORAGE_SIZE);
    }

    method FindEntryInDir(name: Name, parent: nat) returns (r: int)
      requires Valid()
      ensures r == Find(View().table, name, parent)
    {
      for i := 0 to MAX_FILES
        invariant Find(table[..], name, parent) == FindFrom(table[..], name, parent, i)
      {
        if table[i].name[0] != 0 && table[i].parent == parent {
          var d := StrCompare(table[i].name, name);
          if d == 0 {
            return i;
          }
        }
      }
      return -1;
    }

    method FindFreeEntry() returns (r: int)
      requires Valid()
      ensures r == FreeFrom(View().table, 0)
    {
      for i := 0 to MAX_FILES
        invariant FreeFrom(table[..], 0) == FreeFrom(table[..], i)
      {
        if table[i].name[0] == 0 {
          return i;
        }
      }
      return -1;
    }

    method FindFreeSector() returns (last: nat)
      requires Valid()
      ensures last == FreeSector(View().table, MAX_FILES)
    {
      last := 0;
      for i := 0 to MAX_FILES
        invariant last == FreeSector(table[..], i)
      {
        if table[i].name[0] != 0 && table[i].kind == FILE {
          var end := table[i].start + (table[i].length + 511) / 512;
          if end > last {
            last := end;
          }
        }
      }
    }

    /** memset, the magic number, then memcpy of the table. */
    method SyncFileTable()
      requires Valid()
      modifies storage
      ensures View() == Sync(old(View()))
    {
      ghost var before := storage[..];
      FillBytes(storage, 0, DATA_START);
      ghost var cleared := storage[..];
      CopyBytes(storage, 0, LE32(MAGIC));
      CopyTable();
      SyncLayout(before, cleared, LE32(MAGIC), EncodeTable(table[..]));
    }

    method CopyTable()
      requires Valid()
      modifies storage
      ensures storage[..] == Splice(old(storage[..]), 4, EncodeTable(table[..]))
    {
      ghost var entries, before := table[..], storage[..];
      for i := 0 to MAX_FILES
        invariant table[..] == entries
        invariant storage[..] == Splice(before, 4, EncodeTable(entries[..i]))
      {
        CopyEntry(i, entries, before);
      }
      assert entries[..MAX_FILES] == entries;
    }

    /** The bytes of one entry, behind those of the entries before it. */
    method CopyEntry(i: Slot, ghost entries: Table, ghost before: Storage)
      requires Valid() && table[..] == entries && storage[..] == Splice(before, 4, EncodeTable(entries[..i]))
      modifies storage
      ensures storage[..] == Splice(before, 4, EncodeTable(entries[..i+1]))
    {
      EncodeNext(entries, i);
      SpliceOnward(before, 4, EncodeTable(entries[..i]), Encode(entries[i]));
      CopyBytes(storage, 4 + 32 * i, Encode(table[i]));
    }

    /** Changes one entry in place and syncs. */
    method ReplaceEntry(i: Slot, e: Entry)
      requires Valid()
      modifies table, storage
      ensures View() == Replace(old(View()), i, e)
    {
      table[i] := e;
      SyncFileTable();
    }

    /** The checks before an entry is made. */
    method FindVacancy(name: Name, parent: nat) returns (r: int)
      requires Valid()
      ensures r == Vacancy(View().table, name, parent)
    {
      if |name| >= NAME_LENGTH { return -1; }
      var found := FindEntryInDir(name, parent);
      if found != -1 { return -2; }
      r := FindFreeEntry();
      if r == -1 { return -3; }
    }

    method CreateFile(name: Name) returns (r: int)
      requires Valid()
      modifies table, storage
      ensures (View(), r) == Create(old(View()), name, FILE)
    {
      r := FindVacancy(name, cwd);
      if r >= 0 {
        ReplaceEntry(r, Fresh(table[r], name, FILE, cwd));
        r := 0;
      }
    }

    /** bdfs_create_dir_entry: no sync. */
    method CreateDirEntry(name: Name, parent: Slot) returns (r: int)
      requires Valid()
      modifies table
      ensures r == Vacancy(old(table[..]), name, parent)
      ensures table[..] == AddDirectory(old(table[..]), name, parent)
    {
      r := FindVacancy(name, parent);
      if r >= 0 {
        table[r] := Fresh(table[r], name, DIRECTORY, parent);
      }
    }

    method Mkdir(name: Name) returns (r: int)
      requires Valid()
      modifies table, storage
      ensures (View(), r) == Create(old(View()), name, DIRECTORY)
    {
      r := CreateDirEntry(name, cwd);
      if r >= 0 {
        SyncFileTable();
        r := 0;
      }
    }

    method DeleteFile(name: Name) returns (r: int)
      requires Valid()
      modifies table, storage
      ensures (View(), r) == Delete(old(View()), name)
    {
      var i := FindEntryInDir(name, cwd);
      if i == -1 { return -1; }
      ReplaceEntry(i, Killed(table[i]));
      r := 0;
    }

    method RenameFile(oldName: Name, newName: Name) returns (r: int)
      requires Valid()
      modifies table, storage
      ensures (View(), r) == Rename(old(View()), oldName, newName)
    {
      if |newName| >= NAME_LENGTH { return -1; }
      var i := FindEntryInDir(oldName, cwd);
      if i == -1 { return -2; }
      var found := FindEntryInDir(newName, cwd);
      if found != -1 { return -3; }
      ReplaceEntry(i, Named(table[i], newName));
      r := 0;
    }

    method ChangeDir(name: Name) returns (r: int)
      requires Valid()
      modifies this`cwd
      ensures (View(), r) == Chdir(old(View()), name)
    {
      if name == DOT { return 0; }
      if name == DOT_DOT {
        if cwd != 0 {
          cwd := table[cwd].parent;
        }
        return 0;
      }
      var i := FindEntryInDir(name, cwd);
      if i == -1 { return -1; }
      if table[i].kind != DIRECTORY { return -2; }
      cwd := i;
      r := 0;
    }

    /** Where a write of `needed` sectors would go. */
    method FindPlace(i: Slot, needed: nat) returns (start: int)
      requires Valid()
      ensures start == PlaceWrite(View().table, i, needed)
    {
      if table[i].kind != FILE { return -3; }
      if table[i].length == 0 {
        start := FindFreeSector();
        if start + needed > DATA_SECTORS { return -2; }
      } else {
        start := table[i].start;
        var owned := (table[i].length + 511) / 512;
        if needed > owned { return -2; }
      }
    }

    method WriteFile(name: Name, buffer: Buffer) returns (r: int)
      requires Valid()
      modifies table, storage
      ensures (View(), r) == Write(old(View()), name, buffer)
    {
      var i := FindEntryInDir(name, cwd);
      if i == -1 { return -1; }
      var start := FindPlace(i, (|buffer| + 511) / 512);
      if start < 0 { return start; }
      CopyBytes(storage, DATA_START + 512 * start, buffer);
      ReplaceEntry(i, Placed(table[i], start, |buffer|));
      r := |buffer|;
    }

    /** `fits` is false where the copy would run past the caller's buffer. */
    method ReadFile(name: Name, buffer: array<Byte>) returns (r: int, bytesRead: nat, fits: bool)
      requires Valid() && buffer != storage
      modifies buffer
      ensures r == Read(View(), name).0 && (fits <==> |Read(View(), name).1| <= buffer.Length)
      ensures r == 0 && fits ==> bytesRead <= buffer.Length && buffer[..bytesRead] == Read(View(), name).1
      ensures r < 0 || !fits ==> buffer[..] == old(buffer[..])
    {
      fits := true;
      var i := FindEntryInDir(name, cwd);
      if i == -1 { return -1, 0, fits; }
      if table[i].kind != FILE { return -2, 0, fits; }
      bytesRead := table[i].length;
      var at := DATA_START + 512 * table[i].start;
      fits := bytesRead <= buffer.Length;
      if bytesRead > 0 && fits {
        CopyBytes(buffer, 0, storage[at..at + bytesRead]);
      }
      r := 0;
    }

    /** memset of the table. */
    method ClearTable()
      requires Valid()
      modifies table
      ensures table[..] == BlankTable()
    {
      for i := 0 to MAX_FILES
        invariant forall k :: 0 <= k < i ==> table[k] == Blank()
      {
        table[i] := Blank();
      }
    }

    /** The default directories. */
    method PopulateTable()
      requires Valid()
      modifies table
      ensures table[..] == Populate(old(table[..]))
    {
      var slot := CreateDirEntry(SOUL, 0);
      slot := CreateDirEntry(CORTEX, 0);
      var vault := CreateDirEntry(VAULT, 0);
      slot := CreateDirEntry(CHROME, 0);
      slot := CreateDirEntry(DRIFT, 0);
      slot := CreateDirEntry(GHOST, 0);
      if vault >= 0 {
        slot := CreateDirEntry(CYPHER, vault);
      }
    }

    /** memcpy of the stored table. */
    method LoadTable()
      requires Valid() && StoredOk(storage[..])
      modifies table
      ensures table[..] == StoredTable(old(storage[..]))
    {
      ghost var bytes := storage[..];
      for i := 0 to MAX_FILES
        invariant storage[..] == bytes
        invariant forall k :: 0 <= k < i ==> table[k] == StoredRecord(bytes, k)
      {
        assert bytes[4 + 32 * i..36 + 32 * i] == storage[4 + 32 * i..36 + 32 * i];
        assert EntryOk(StoredRecord(bytes, i));
        table[i] := Decode(storage[4 + 32 * i..36 + 32 * i]);
      }
    }

    method InitDisk()
      requires Valid() && (HasMagic(storage[..]) ==> StoredOk(storage[..]))
      modifies this`cwd, table, storage
      ensures View() == Init(old(View()))
    {
      assert storage[..][..4] == storage[..4];
      cwd := 0;
      if FromLE32(storage[..4]) != MAGIC {
        ClearTable();
        table[0] := Fresh(table[0], ROOT, DIRECTORY, 0);
        PopulateTable();
        SyncFileTable();
      } else {
        LoadTable();
      }
    }
  }
}
