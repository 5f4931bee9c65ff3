/** What each BDFS operation does, told by what the table holds before and after
    and by what lookups then find. */
module BdfsLaws {
  import opened Bytes
  import opened BdfsModel
  import opened BdfsRuns

  /** Some live entry of directory `d` has this name. */
  predicate Exists(table: Table, name: Name, d: nat) {
    exists i :: 0 <= i < MAX_FILES && Matches(table[i], name, d)
  }

  lemma FindMeans(table: Table, name: Name, d: nat)
    ensures Find(table, name, d) == -1 <==> !Exists(table, name, d)
  {
    var r := Find(table, name, d);
    assert r >= 0 ==> Matches(table[r], name, d);
  }

  /** All slots but `i` are as before. */
  predicate OnlySlot(before: Table, after: Table, i: int) {
    forall j :: 0 <= j < MAX_FILES && j != i ==> after[j] == before[j]
  }

  predicate Full(table: Table) { forall i :: 0 <= i < MAX_FILES ==> Live(table[i]) }

  /** Creation fails exactly for a long name, a taken name and a full table, in
      that order of precedence. */
  lemma CreateResult(fs: Fs, name: Name, kind: nat)
    requires kind <= DIRECTORY
    ensures Create(fs, name, kind).1 ==
            if |name| >= NAME_LENGTH then -1
            else if Exists(fs.table, name, fs.cwd) then -2
            else if Full(fs.table) then -3
            else 0
  {
    FindMeans(fs.table, name, fs.cwd);
    var i := FreeFrom(fs.table, 0);
    assert i >= 0 ==> !Live(fs.table[i]);
  }

  /** A new entry is found under its name, empty, in what was the first free
      slot; the other slots are untouched. An empty name leaves it dead. */
  lemma CreateEffect(fs: Fs, contents: Contents, path: seq<Slot>, name: Name, kind: nat)
    requires Inv(fs, contents, path) && kind <= DIRECTORY && Vacancy(fs.table, name, fs.cwd) >= 0
    ensures var after, i := Create(fs, name, kind).0, Vacancy(fs.table, name, fs.cwd);
            && Create(fs, name, kind).1 == 0 && i < MAX_FILES
            && !Live(fs.table[i]) && (forall k :: 0 <= k < i ==> Live(fs.table[k]))
            && OnlySlot(fs.table, after.table, i) && after.cwd == fs.cwd
            && after.table[i].kind == kind && after.table[i].parent == fs.cwd
            && after.table[i].start == after.table[i].length == 0
            && (if name == [] then !Live(after.table[i]) else Find(after.table, name, fs.cwd) == i)
  {
    var i := Vacancy(fs.table, name, fs.cwd);
    VacancyIsFirst(fs.table, name, fs.cwd);
    CreateInv(fs, contents, path, name, kind);
    assert Create(fs, name, kind).0.table == fs.table[i := Fresh(fs.table[i], name, kind, fs.cwd)];
    CreatedSlot(fs, i, name, kind);
  }

  lemma VacancyIsFirst(table: Table, name: Name, d: nat)
    ensures forall k :: 0 <= k < Vacancy(table, name, d) ==> Live(table[k])
  {
  }

  lemma CreatedSlot(fs: Fs, i: Slot, name: Name, kind: nat)
    requires |name| < NAME_LENGTH && kind <= DIRECTORY
    requires Unique(fs.table[i := Fresh(fs.table[i], name, kind, fs.cwd)])
    ensures var after := fs.table[i := Fresh(fs.table[i], name, kind, fs.cwd)];
            if name == [] then !Live(after[i]) else Find(after, name, fs.cwd) == i
  {
    var after := fs.table[i := Fresh(fs.table[i], name, kind, fs.cwd)];
    NameStart(after[i].name);
    if name != [] { FindIsTheMatch(after, name, fs.cwd, i); }
  }

  lemma NameStart(raw: seq<Byte>)
    requires |raw| > 0
    ensures raw[0] == 0 <==> CStr(raw) == []
  {
  }

  /** Deletion needs the entry to exist; afterwards it does not, and the other
      slots are untouched, children of a deleted directory included. */
  lemma DeleteEffect(fs: Fs, contents: Contents, path: seq<Slot>, name: Name)
    requires Inv(fs, contents, path)
    ensures Delete(fs, name).1 == if Exists(fs.table, name, fs.cwd) then 0 else -1
    ensures var after, i := Delete(fs, name).0, Find(fs.table, name, fs.cwd);
            Delete(fs, name).1 == 0 ==>
              && OnlySlot(fs.table, after.table, i) && after.cwd == fs.cwd
              && 0 <= i < MAX_FILES && !Live(after.table[i]) && !Exists(after.table, name, fs.cwd)
  {
    FindMeans(fs.table, name, fs.cwd);
    var after, i := Delete(fs, name).0, Find(fs.table, name, fs.cwd);
    if i >= 0 {
      forall j | 0 <= j < MAX_FILES ensures !Matches(after.table[j], name, fs.cwd) {
        assert j != i ==> !SameKey(fs.table[j], fs.table[i]);
      }
    }
  }

  /** Renaming fails exactly for a long new name, a missing entry and a taken
      new name, in that order of precedence. */
  lemma RenameResult(fs: Fs, name: Name, newName: Name)
    ensures Rename(fs, name, newName).1 ==
            if |newName| >= NAME_LENGTH then -1
            else if !Exists(fs.table, name, fs.cwd) then -2
            else if Exists(fs.table, newName, fs.cwd) then -3
            else 0
  {
    FindMeans(fs.table, name, fs.cwd);
    FindMeans(fs.table, newName, fs.cwd);
  }

  /** Otherwise the same slot, with everything else about it, answers to the new
      name and nothing to the old one. An empty new name kills it. */
  lemma RenameEffect(fs: Fs, contents: Contents, path: seq<Slot>, name: Name, newName: Name)
    requires Inv(fs, contents, path) && Rename(fs, name, newName).1 == 0
    ensures var after, i := Rename(fs, name, newName).0, Find(fs.table, name, fs.cwd);
            && OnlySlot(fs.table, after.table, i) && after.cwd == fs.cwd
            && 0 <= i < MAX_FILES && after.table[i].(name := fs.table[i].name) == fs.table[i]
            && !Exists(after.table, name, fs.cwd)
            && (if newName == [] then !Live(after.table[i]) else Find(after.table, newName, fs.cwd) == i)
  {
    var i := Find(fs.table, name, fs.cwd);
    RenameInv(fs, contents, path, name, newName);
    RenamedSlot(fs, i, name, newName);
  }

  lemma RenamedSlot(fs: Fs, i: Slot, name: Name, newName: Name)
    requires |newName| < NAME_LENGTH && Matches(fs.table[i], name, fs.cwd) && name != newName
    requires Unique(fs.table) && Unique(fs.table[i := Named(fs.table[i], newName)])
    ensures var after := fs.table[i := Named(fs.table[i], newName)];
            && !Exists(after, name, fs.cwd)
            && (if newName == [] then !Live(after[i]) else Find(after, newName, fs.cwd) == i)
  {
    var after := fs.table[i := Named(fs.table[i], newName)];
    NameStart(after[i].name);
    forall j | 0 <= j < MAX_FILES ensures !Matches(after[j], name, fs.cwd) {
      assert j != i ==> !SameKey(fs.table[j], fs.table[i]);
    }
    if newName != [] { FindIsTheMatch(after, newName, fs.cwd, i); }
  }

  // ----- What one operation undoes -----

  lemma {:induction false} FindSame(a: Table, b: Table, name: Name, d: nat, i: nat)
    requires i <= MAX_FILES && forall j :: 0 <= j < MAX_FILES ==> Matches(a[j], name, d) == Matches(b[j], name, d)
    ensures FindFrom(a, name, d, i) == FindFrom(b, name, d, i)
    decreases MAX_FILES - i
  {
    if i < MAX_FILES { FindSame(a, b, name, d, i + 1); }
  }

  /** Creating an entry and deleting it leaves every lookup in every directory as
      it was. */
  lemma DeleteUndoesCreate(fs: Fs, contents: Contents, path: seq<Slot>, name: Name, kind: nat, other: Name, d: nat)
    requires Inv(fs, contents, path) && kind <= DIRECTORY && name != [] && Vacancy(fs.table, name, fs.cwd) >= 0
    ensures var made := Create(fs, name, kind).0;
            && Delete(made, name).1 == 0
            && Find(Delete(made, name).0.table, other, d) == Find(fs.table, other, d)
  {
    var i := Vacancy(fs.table, name, fs.cwd);
    CreateEffect(fs, contents, path, name, kind);
    var made := Create(fs, name, kind).0;
    var after := Delete(made, name).0;
    assert after.table == made.table[i := Killed(made.table[i])];
    FindSame(after.table, fs.table, other, d, 0);
  }

  /** Renaming back and forth leaves every lookup in every directory as it was. */
  lemma RenameUndoesRename(fs: Fs, contents: Contents, path: seq<Slot>, name: Name, newName: Name, other: Name, d: nat)
    requires Inv(fs, contents, path) && Rename(fs, name, newName).1 == 0 && newName != []
    ensures var there := Rename(fs, name, newName).0;
            && Rename(there, newName, name).1 == 0
            && Find(Rename(there, newName, name).0.table, other, d) == Find(fs.table, other, d)
  {
    var i := Find(fs.table, name, fs.cwd);
    RenameEffect(fs, contents, path, name, newName);
    var there := Rename(fs, name, newName).0;
    FindMeans(there.table, name, fs.cwd);
    ShortName(fs.table[i].name);
    var back := Rename(there, newName, name).0;
    assert back.table == there.table[i := Named(there.table[i], name)];
    RenamedBack(fs.table, there.table, back.table, i, name, other, d);
  }

  lemma ShortName(raw: seq<Byte>)
    requires 0 in raw
    ensures |CStr(raw)| < |raw|
  {
  }

  lemma RenamedBack(t: Table, there: Table, back: Table, i: Slot, name: Name, other: Name, d: nat)
    requires OnlySlot(t, there, i) && |name| < NAME_LENGTH && back == there[i := Named(there[i], name)]
    requires CStr(t[i].name) == name && there[i].(name := t[i].name) == t[i]
    ensures Find(back, other, d) == Find(t, other, d)
  {
    NameStart(t[i].name);
    NameStart(back[i].name);
    FindSame(back, t, other, d, 0);
  }

  /** Changing directory enters exactly the named directory, and `..` undoes it
      unless the entry sits in slot 0. */
  lemma ChdirEffect(fs: Fs, name: Name)
    requires name != DOT && name != DOT_DOT
    ensures var (after, rc) := Chdir(fs, name);
            && (rc == -1 <==> !Exists(fs.table, name, fs.cwd))
            && (rc == 0 ==> LeadsTo(fs.table[after.cwd], fs.cwd) && CStr(fs.table[after.cwd].name) == name)
            && (rc == -2 ==> IsFile(fs.table[Find(fs.table, name, fs.cwd)]))
            && rc in {0, -1, -2}
            && (rc == 0 && after.cwd != 0 ==> Chdir(after, DOT_DOT) == (fs, 0))
  {
    FindMeans(fs.table, name, fs.cwd);
  }

  /** The free sector is the end of some live file, or 0. */
  lemma {:induction false} FreeSectorAttained(table: Table, n: nat)
    requires n <= MAX_FILES
    ensures FreeSector(table, n) == 0
            || exists k :: 0 <= k < n && IsFile(table[k]) && End(table[k]) == FreeSector(table, n)
  {
    if n > 0 {
      FreeSectorAttained(table, n - 1);
      var s := FreeSector(table, n - 1);
      if FreeSector(table, n) == s && s != 0 {
        var k :| 0 <= k < n - 1 && IsFile(table[k]) && End(table[k]) == s;
      }
    }
  }

  /** A write fits if an empty file finds the sectors behind the last file, or
      a file with data already owns as many. */
  predicate WriteFits(table: Table, i: Slot, needed: nat) {
    if table[i].length > 0 then needed <= Sectors(table[i].length)
    else
      && needed <= DATA_SECTORS
      && forall k :: 0 <= k < MAX_FILES && IsFile(table[k]) ==> End(table[k]) + needed <= DATA_SECTORS
  }

  /** Every live file ends by sector `s`, and one ends there unless it is 0. */
  predicate EndOfFiles(table: Table, s: nat) {
    && (forall k :: 0 <= k < MAX_FILES && Live(table[k]) && table[k].kind == FILE ==> End(table[k]) <= s)
    && (s == 0 || exists k :: 0 <= k < MAX_FILES && Live(table[k]) && table[k].kind == FILE && End(table[k]) == s)
  }

  /** Writing fails exactly for a missing entry, a directory and a lack of
      sectors; otherwise one entry changes its extent and nothing else: a file
      without data starts where the last live file ends. */
  lemma WriteEffect(fs: Fs, name: Name, data: Buffer)
    ensures var (after, rc) := Write(fs, name, data);
            var i := Find(fs.table, name, fs.cwd);
            && (rc == -1 <==> !Exists(fs.table, name, fs.cwd))
            && (rc == -3 <==> i >= 0 && fs.table[i].kind == DIRECTORY)
            && (rc == -2 <==> i >= 0 && fs.table[i].kind == FILE && !WriteFits(fs.table, i, Sectors(|data|)))
            && (rc >= 0 ==>
                  && rc == |data| && OnlySlot(fs.table, after.table, i) && after.cwd == fs.cwd
                  && after.table[i].length == |data|
                  && after.table[i].(start := fs.table[i].start, length := fs.table[i].length) == fs.table[i]
                  && if fs.table[i].length > 0 then after.table[i].start == fs.table[i].start
                     else EndOfFiles(fs.table, after.table[i].start))
  {
    FindMeans(fs.table, name, fs.cwd);
    var i := Find(fs.table, name, fs.cwd);
    if i >= 0 { PlaceMeans(fs.table, i, Sectors(|data|)); }
  }

  lemma PlaceMeans(table: Table, i: Slot, needed: nat)
    ensures PlaceWrite(table, i, needed) == -3 <==> table[i].kind == DIRECTORY
    ensures PlaceWrite(table, i, needed) == -2 <==> table[i].kind == FILE && !WriteFits(table, i, needed)
    ensures PlaceWrite(table, i, needed) >= -3 && PlaceWrite(table, i, needed) != -1
    ensures var r := PlaceWrite(table, i, needed);
            r >= 0 && table[i].length == 0 ==> EndOfFiles(table, r)
  {
    FreeSectorAttained(table, MAX_FILES);
  }

  // ----- The file system as a table of contents -----

  /** Directory `d` holds an entry of this name and kind. */
  predicate Lists(table: Table, name: Name, d: nat, kind: nat) {
    exists i :: 0 <= i < 64 && IsListed(table[i], name, d, kind)
  }

  predicate IsListed(e: Entry, name: Name, d: nat, kind: nat) {
    e.name[0] != 0 && CStr(e.name) == name && e.parent == d && e.kind == kind
  }

  lemma ListedIsFound(fs: Fs, name: Name, d: nat, kind: nat)
    requires Unique(fs.table)
    ensures var i := Find(fs.table, name, d);
            Lists(fs.table, name, d, kind) <==> i >= 0 && fs.table[i].kind == kind
  {
    FindMeans(fs.table, name, d);
    var i := Find(fs.table, name, d);
    if i >= 0 { assert IsListed(fs.table[i], name, d, fs.table[i].kind); }
    if Lists(fs.table, name, d, kind) {
      var j :| 0 <= j < 64 && IsListed(fs.table[j], name, d, kind);
      FindIsTheMatch(fs.table, name, d, j);
    }
  }

  lemma OneSlot(before: Table, after: Table, i: Slot, name: Name, d: nat, kind: nat)
    requires OnlySlot(before, after, i)
    ensures Lists(after, name, d, kind) <==>
            IsListed(after[i], name, d, kind) || exists j :: 0 <= j < 64 && j != i && IsListed(before[j], name, d, kind)
    ensures Lists(before, name, d, kind) <==>
            || IsListed(before[i], name, d, kind)
            || exists j :: 0 <= j < 64 && j != i && IsListed(before[j], name, d, kind)
  {
    if Lists(after, name, d, kind) {
      var j :| 0 <= j < 64 && IsListed(after[j], name, d, kind);
      assert j != i ==> IsListed(before[j], name, d, kind);
    }
    if j :| 0 <= j < 64 && j != i && IsListed(before[j], name, d, kind) {
      assert IsListed(after[j], name, d, kind);
    }
  }

  /** An entry is created: it is listed, and everything else as before. */
  ghost predicate Adds(before: Fs, after: Fs, name: Name, kind: nat) {
    forall n: Name, d: nat, k: nat ::
      Lists(after.table, n, d, k) <==>
      Lists(before.table, n, d, k) || (name != [] && n == name && d == before.cwd && k == kind)
  }

  ghost predicate Removes(before: Fs, after: Fs, name: Name) {
    forall n: Name, d: nat, k: nat ::
      Lists(after.table, n, d, k) <==> Lists(before.table, n, d, k) && !(n == name && d == before.cwd)
  }

  ghost predicate Renames(before: Fs, after: Fs, name: Name, newName: Name) {
    forall n: Name, d: nat, k: nat ::
      Lists(after.table, n, d, k) <==>
      if d == before.cwd && n == name then false
      else if d == before.cwd && n == newName then newName != [] && Lists(before.table, name, d, k)
      else Lists(before.table, n, d, k)
  }

  ghost predicate SameListing(before: Fs, after: Fs) {
    forall n: Name, d: nat, k: nat :: Lists(after.table, n, d, k) <==> Lists(before.table, n, d, k)
  }

  lemma CreateAdds(fs: Fs, contents: Contents, path: seq<Slot>, name: Name, kind: nat)
    requires Inv(fs, contents, path) && kind <= DIRECTORY && Create(fs, name, kind).1 == 0
    ensures Adds(fs, Create(fs, name, kind).0, name, kind)
  {
    var after, i := Create(fs, name, kind).0, Vacancy(fs.table, name, fs.cwd);
    CreateEffect(fs, contents, path, name, kind);
    assert CStr(after.table[i].name) == name;
    NameStart(after.table[i].name);
    forall n: Name, d: nat, k: nat
      ensures Lists(after.table, n, d, k) <==>
              Lists(fs.table, n, d, k) || (name != [] && n == name && d == fs.cwd && k == kind)
    {
      OneSlot(fs.table, after.table, i, n, d, k);
    }
  }

  lemma DeleteRemoves(fs: Fs, contents: Contents, path: seq<Slot>, name: Name)
    requires Inv(fs, contents, path) && Delete(fs, name).1 == 0
    ensures Removes(fs, Delete(fs, name).0, name)
  {
    var after, i := Delete(fs, name).0, Find(fs.table, name, fs.cwd);
    DeleteEffect(fs, contents, path, name);
    forall n: Name, d: nat, k: nat
      ensures Lists(after.table, n, d, k) <==> Lists(fs.table, n, d, k) && !(n == name && d == fs.cwd)
    {
      OneSlot(fs.table, after.table, i, n, d, k);
    }
  }

  lemma RenameRenames(fs: Fs, contents: Contents, path: seq<Slot>, name: Name, newName: Name)
    requires Inv(fs, contents, path) && Rename(fs, name, newName).1 == 0
    ensures Renames(fs, Rename(fs, name, newName).0, name, newName)
  {
    var after, i := Rename(fs, name, newName).0, Find(fs.table, name, fs.cwd);
    RenameEffect(fs, contents, path, name, newName);
    NameStart(after.table[i].name);
    forall n: Name, d: nat, k: nat
      ensures Lists(after.table, n, d, k) <==>
              if d == fs.cwd && n == name then false
              else if d == fs.cwd && n == newName then newName != [] && Lists(fs.table, name, d, k)
              else Lists(fs.table, n, d, k)
    {
      OneSlot(fs.table, after.table, i, n, d, k);
      ListedIsFound(fs, n, d, k);
      ListedIsFound(fs, name, d, k);
      RenameInv(fs, contents, path, name, newName);
      ListedIsFound(after, n, d, k);
      FindMeans(after.table, n, d);
    }
  }

  lemma WriteKeepsListing(fs: Fs, contents: Contents, path: seq<Slot>, name: Name, data: Buffer)
    requires Inv(fs, contents, path)
    ensures var (after, rc) := Write(fs, name, data);
            && after.cwd == fs.cwd && SameListing(fs, after)
            && if rc >= 0 then Read(after, name).0 == 0 && |Read(after, name).1| == |data| else after == fs
  {
    var (after, rc) := Write(fs, name, data);
    var i := Find(fs.table, name, fs.cwd);
    WriteEffect(fs, name, data);
    if rc >= 0 {
      ReadAfterWrite(fs, contents, path, name, data);
      forall n: Name, d: nat, k: nat
        ensures Lists(after.table, n, d, k) <==> Lists(fs.table, n, d, k)
      {
        OneSlot(fs.table, after.table, i, n, d, k);
      }
    }
  }

  /** What each operation makes of the table of contents and of the current
      directory, in any state that a run can reach. */
  lemma StepLists(fs: Fs, contents: Contents, path: seq<Slot>, op: Op)
    requires Inv(fs, contents, path)
    ensures var (after, rc) := Step(fs, op);
            match op
            case CreateFile(name) =>
              && after.cwd == fs.cwd && (rc == 0 <==> |name| < 16 && !Exists(fs.table, name, fs.cwd) && !Full(fs.table))
              && if rc == 0 then Adds(fs, after, name, 0) else after == fs
            case Mkdir(name) =>
              && after.cwd == fs.cwd && (rc == 0 <==> |name| < 16 && !Exists(fs.table, name, fs.cwd) && !Full(fs.table))
              && if rc == 0 then Adds(fs, after, name, 1) else after == fs
            case DeleteFile(name) =>
              && after.cwd == fs.cwd && (rc == 0 <==> Exists(fs.table, name, fs.cwd))
              && if rc == 0 then Removes(fs, after, name) else after == fs
            case RenameFile(name, newName) =>
              && after.cwd == fs.cwd
              && (rc == 0 <==> |newName| < 16 && Exists(fs.table, name, fs.cwd) && !Exists(fs.table, newName, fs.cwd))
              && if rc == 0 then Renames(fs, after, name, newName) else after == fs
            case ChangeDir(name) =>
              && after.table == fs.table && (rc == 0 || after == fs)
              && if name == [46] then rc == 0 && after == fs
                 else if name == [46, 46] then
                   rc == 0 && after.cwd == if fs.cwd == 0 then 0 else fs.table[fs.cwd].parent
                 else && (rc == 0 <==> Lists(fs.table, name, fs.cwd, 1))
                      && (rc == 0 ==> IsListed(fs.table[after.cwd], name, fs.cwd, 1))
            case WriteFile(name, data) =>
              && after.cwd == fs.cwd && SameListing(fs, after)
              && if rc >= 0 then Read(after, name).0 == 0 && |Read(after, name).1| == |data| else after == fs
            case Reinit => after.table == fs.table && after.cwd == 0
  {
    match op
    case CreateFile(name) =>
      CreateResult(fs, name, FILE);
      if Create(fs, name, FILE).1 == 0 { CreateAdds(fs, contents, path, name, FILE); }
    case Mkdir(name) =>
      CreateResult(fs, name, DIRECTORY);
      if Create(fs, name, DIRECTORY).1 == 0 { CreateAdds(fs, contents, path, name, DIRECTORY); }
    case DeleteFile(name) =>
      DeleteEffect(fs, contents, path, name);
      if Delete(fs, name).1 == 0 { DeleteRemoves(fs, contents, path, name); }
    case RenameFile(name, newName) =>
      RenameResult(fs, name, newName);
      if Rename(fs, name, newName).1 == 0 { RenameRenames(fs, contents, path, name, newName); }
    case ChangeDir(name) => ListedIsFound(fs, name, fs.cwd, DIRECTORY);
    case WriteFile(name, data) => WriteKeepsListing(fs, contents, path, name, data);
    case Reinit => ReinitRestores(fs);
  }

  // ----- The first file on a disk -----

  lemma {:induction false} NothingTaken(table: Table, n: nat)
    requires n <= MAX_FILES
    requires forall j :: 0 <= j < MAX_FILES ==> table[j].start == 0 && table[j].length == 0
    ensures FreeSector(table, n) == 0
  {
    if n > 0 { NothingTaken(table, n - 1); }
  }

  /** On a disk without data the first write goes to sector 0. */
  lemma FirstWrite(fs: Fs, contents: Contents, path: seq<Slot>, name: Name, data: Buffer)
    requires Inv(fs, contents, path)
    requires forall j :: 0 <= j < MAX_FILES ==> fs.table[j].start == 0 && fs.table[j].length == 0
    requires var i := Find(fs.table, name, fs.cwd); 0 <= i < 63 && fs.table[i].kind == FILE
    requires 4 <= |data| <= 512 * DATA_SECTORS
    ensures Read(Write(fs, name, data).0, name) == (0, LE32(0) + data[4..])
  {
    var i := Find(fs.table, name, fs.cwd);
    NothingTaken(fs.table, MAX_FILES);
    ReadAfterWrite(fs, contents, path, name, data);
  }

  /** No entry has been written, and from slot `n` on none is in use. */
  predicate Empty(table: Table, n: nat) {
    forall j :: 0 <= j < MAX_FILES ==> table[j].start == 0 && table[j].length == 0 && (n <= j ==> !Live(table[j]))
  }

  lemma FreeIsLow(table: Table, n: nat)
    requires Empty(table, n) && n < MAX_FILES
    ensures 0 <= FreeFrom(table, 0) <= n
  {
    assert !Live(table[n]);
  }

  lemma AddKeepsEmpty(table: Table, name: Name, parent: Slot, n: nat)
    requires Empty(table, n) && n < MAX_FILES
    ensures Empty(AddDirectory(table, name, parent), n + 1)
  {
    FreeIsLow(table, n);
  }

  lemma PopulateKeepsEmpty(t0: Table)
    requires Empty(t0, 1)
    ensures Empty(Populate(t0), 8)
  {
    var t1 := AddDirectory(t0, SOUL, 0);
    AddKeepsEmpty(t0, SOUL, 0, 1);
    var t2 := AddDirectory(t1, CORTEX, 0);
    AddKeepsEmpty(t1, CORTEX, 0, 2);
    var t3, vault := AddDirectory(t2, VAULT, 0), Vacancy(t2, VAULT, 0);
    AddKeepsEmpty(t2, VAULT, 0, 3);
    var t4 := AddDirectory(t3, CHROME, 0);
    AddKeepsEmpty(t3, CHROME, 0, 4);
    var t5 := AddDirectory(t4, DRIFT, 0);
    AddKeepsEmpty(t4, DRIFT, 0, 5);
    var t6 := AddDirectory(t5, GHOST, 0);
    AddKeepsEmpty(t5, GHOST, 0, 6);
    if vault >= 0 { AddKeepsEmpty(t6, CYPHER, vault, 7); }
  }

  lemma BootIsEmpty()
    ensures Empty(Run([]).fs.table, 8) && Run([]).fs.cwd == 0
  {
    PowerOnHasNoMagic();
    assert Empty(RootOnly(), 1);
    PopulateKeepsEmpty(RootOnly());
  }

  lemma CreateOnEmpty(fs: Fs, contents: Contents, path: seq<Slot>, name: Name)
    requires Inv(fs, contents, path) && Empty(fs.table, 8)
    requires 0 < |name| < NAME_LENGTH && Find(fs.table, name, fs.cwd) == -1
    ensures HasFirstFile(Create(fs, name, FILE).0, name) && Create(fs, name, FILE).0.cwd == fs.cwd
  {
    FreeIsLow(fs.table, 8);
    CreateEffect(fs, contents, path, name, FILE);
  }

  /** Nothing has been written, and there is a file of this name in a slot other
      than the last. */
  predicate HasFirstFile(fs: Fs, name: Name) {
    && Empty(fs.table, MAX_FILES)
    && var i := Find(fs.table, name, fs.cwd); 0 <= i < 63 && fs.table[i].kind == FILE
  }

  lemma RunNext(ops: seq<Op>, op: Op)
    ensures Run(ops + [op]).fs == Step(Run(ops).fs, op).0
  {
    assert (ops + [op])[..|ops|] == ops;
  }

  lemma FirstFileCreated(name: Name)
    requires 0 < |name| < NAME_LENGTH && Find(Run([]).fs.table, name, 0) == -1
    ensures HasFirstFile(Run([CreateFile(name)]).fs, name)
  {
    BootIsEmpty();
    BootInv();
    CreateOnEmpty(Run([]).fs, Run([]).contents, [0], name);
    RunNext([], CreateFile(name));
    assert [] + [CreateFile(name)] == [CreateFile(name)];
  }

  lemma FirstFileWritten(ops: seq<Op>, name: Name, data: Buffer)
    requires HasFirstFile(Run(ops).fs, name) && 4 <= |data| <= 512 * DATA_SECTORS
    ensures Read(Run(ops + [WriteFile(name, data)]).fs, name) == (0, LE32(0) + data[4..])
  {
    var path := RunInv(ops);
    FirstWrite(Run(ops).fs, Run(ops).contents, path, name, data);
    RunNext(ops, WriteFile(name, data));
    WriteIsStep(Run(ops).fs, name, data);
  }

  lemma WriteIsStep(fs: Fs, name: Name, data: Buffer)
    requires Synced(fs)
    ensures Step(fs, WriteFile(name, data)) == Write(fs, name, data)
  {
  }

  /** The failing family, from power-on: create a file under any new name in the
      root, write at least four bytes that fit, and it reads back with its first
      four bytes zero, whatever they were. */
  lemma FirstWriteSpoiled(name: Name, data: Buffer)
    requires 0 < |name| < NAME_LENGTH && Find(Run([]).fs.table, name, 0) == -1
    requires 4 <= |data| <= 512 * DATA_SECTORS
    ensures Read(Run([CreateFile(name)] + [WriteFile(name, data)]).fs, name) == (0, LE32(0) + data[4..])
  {
    FirstFileCreated(name);
    FirstFileWritten([CreateFile(name)], name, data);
  }
}
