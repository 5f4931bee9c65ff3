/** Whole runs of BDFS: what every reachable state satisfies. */
module BdfsRuns {
  import opened Bytes
  import opened BdfsModel

  datatype Op =
    | CreateFile(name: Name)
    | Mkdir(name: Name)
    | DeleteFile(name: Name)
    | RenameFile(name: Name, newName: Name)
    | ChangeDir(name: Name)
    | WriteFile(name: Name, data: Buffer)
    | Reinit

  // ----- The stored image -----

  lemma EncodeRoundTrip(e: Entry)
    ensures Decode(Encode(e)) == e
  {
    var b := Encode(e);
    assert b[..16] == e.name && b[16..20] == LE32(e.kind) && b[20..24] == LE32(e.parent);
    assert b[24..28] == LE32(e.start) && b[28..32] == LE32(e.length);
    LE32RoundTrip(e.kind);
    LE32RoundTrip(e.parent);
    LE32RoundTrip(e.start);
    LE32RoundTrip(e.length);
  }

  lemma SliceOfPrefix(a: seq<Byte>, b: seq<Byte>, i: nat, j: nat)
    requires i <= j <= |a|
    ensures (a + b)[i..j] == a[i..j]
  {
  }

  lemma SliceOfEnd(a: seq<Byte>, b: seq<Byte>)
    ensures (a + b)[|a|..|a| + |b|] == b
  {
  }

  lemma {:induction false} EncodeTableAt(table: seq<Entry>, i: nat)
    requires i < |table|
    ensures EncodeTable(table)[32*i..32*i+32] == Encode(table[i])
  {
    var n := |table| - 1;
    var front, last := EncodeTable(table[..n]), Encode(table[n]);
    assert EncodeTable(table) == front + last;
    if i < n {
      EncodeTableAt(table[..n], i);
      SliceOfPrefix(front, last, 32 * i, 32 * i + 32);
    } else {
      SliceOfEnd(front, last);
    }
  }

  lemma Slices(s: seq<Byte>, n: nat, a: nat, i: nat, j: nat)
    requires i <= j && a + j <= n <= |s|
    ensures s[..n][a..][i..j] == s[a + i..a + j]
  {
    forall k | 0 <= k < j - i ensures s[..n][a..][i..j][k] == s[a + i..a + j][k] {
      assert s[..n][a..][i + k] == s[a + i + k];
    }
  }

  lemma StoredRecordIs(fs: Fs, i: Slot)
    requires Synced(fs)
    ensures StoredRecord(fs.storage, i) == fs.table[i]
  {
    EncodeTableAt(fs.table, i);
    EncodeRoundTrip(fs.table[i]);
    assert fs.storage[..IMAGE_SIZE][4..] == EncodeTable(fs.table);
    Slices(fs.storage, IMAGE_SIZE, 4, 32 * i, 32 * i + 32);
  }

  /** Decoding the image gives the table back. */
  lemma ImageRoundTrip(fs: Fs)
    requires Synced(fs)
    ensures HasMagic(fs.storage) && StoredOk(fs.storage) && StoredTable(fs.storage) == fs.table
  {
    assert fs.storage[..4] == fs.storage[..IMAGE_SIZE][..4] == LE32(MAGIC);
    LE32RoundTrip(MAGIC);
    forall i | 0 <= i < MAX_FILES ensures StoredRecord(fs.storage, i) == fs.table[i] {
      StoredRecordIs(fs, i);
    }
  }

  /** The image runs four bytes into the data region: they always hold the
      length field of the last entry. */
  lemma FirstDataBytes(fs: Fs)
    requires Synced(fs)
    ensures fs.storage[DATA_START..IMAGE_SIZE] == LE32(fs.table[63].length)
  {
    EncodeTableAt(fs.table, 63);
    assert fs.storage[DATA_START..IMAGE_SIZE] == fs.storage[..IMAGE_SIZE][DATA_START..];
    assert Image(fs.table)[DATA_START..] == EncodeTable(fs.table)[2044..];
    assert EncodeTable(fs.table)[2044..] == EncodeTable(fs.table)[2016..2048][28..];
  }

  // ----- Steps -----

  function Step(fs: Fs, op: Op): (r: (Fs, int))
    requires Synced(fs)
    ensures Synced(r.0)
  {
    ImageRoundTrip(fs);
    match op
    case CreateFile(name) => Create(fs, name, FILE)
    case Mkdir(name) => Create(fs, name, DIRECTORY)
    case DeleteFile(name) => Delete(fs, name)
    case RenameFile(name, newName) => Rename(fs, name, newName)
    case ChangeDir(name) => Chdir(fs, name)
    case WriteFile(name, data) => Write(fs, name, data)
    case Reinit => (Init(fs), 0)
  }

  /** Failed operations change nothing. */
  lemma FailureChangesNothing(fs: Fs, op: Op)
    requires Synced(fs)
    ensures Step(fs, op).1 < 0 ==> Step(fs, op).0 == fs
  {
  }

  /** In any synced state, running bdfs_init again restores the table exactly
      and only moves to the root. */
  lemma ReinitRestores(fs: Fs)
    requires Synced(fs)
    ensures Step(fs, Reinit) == (fs.(cwd := 0), 0)
  {
    ImageRoundTrip(fs);
    LoadsStored(fs);
  }

  lemma LoadsStored(fs: Fs)
    requires HasMagic(fs.storage) && StoredOk(fs.storage)
    ensures Init(fs) == Fs(StoredTable(fs.storage), fs.storage, 0)
  {
  }

  // ----- Unique names -----

  predicate SameKey(a: Entry, b: Entry) {
    Live(a) && Live(b) && a.parent == b.parent && CStr(a.name) == CStr(b.name)
  }

  predicate Unique(table: Table) {
    forall i, j :: 0 <= i < |table| && 0 <= j < |table| && i != j ==> !SameKey(table[i], table[j])
  }

  lemma UniqueUpdate(table: Table, i: Slot, e: Entry)
    requires Unique(table)
    requires forall j :: 0 <= j < MAX_FILES && j != i ==> !SameKey(table[j], e)
    ensures Unique(table[i := e])
  {
  }

  /** A name that Find does not know is new to the directory. */
  lemma NotFoundIsNew(table: Table, e: Entry)
    requires Find(table, CStr(e.name), e.parent) == -1
    ensures forall j :: 0 <= j < MAX_FILES ==> !SameKey(table[j], e)
  {
    forall j | 0 <= j < MAX_FILES ensures !SameKey(table[j], e) {
      assert !Matches(table[j], CStr(e.name), e.parent);
    }
  }

  /** With unique names a lookup has at most one match, and Find returns it. */
  lemma FindIsTheMatch(table: Table, name: Name, parent: nat, i: Slot)
    requires Unique(table)
    ensures Find(table, name, parent) == i <==> Matches(table[i], name, parent)
  {
    var r := Find(table, name, parent);
    assert r == -1 ==> !Matches(table[i], name, parent);
    assert r >= 0 && Matches(table[i], name, parent) ==> SameKey(table[i], table[r]);
  }

  // ----- Disjoint extents -----

  /** Two live non-empty files share no sector. */
  predicate Apart(a: Entry, b: Entry) {
    IsFile(a) && IsFile(b) && a.length > 0 && b.length > 0 ==> End(a) <= b.start || End(b) <= a.start
  }

  predicate Extents(table: Table) {
    forall i, j :: 0 <= i < |table| && 0 <= j < |table| && i != j ==> Apart(table[i], table[j])
  }

  lemma ExtentsUpdate(table: Table, i: Slot, e: Entry)
    requires Extents(table)
    requires forall j :: 0 <= j < MAX_FILES && j != i ==> Apart(table[j], e)
    ensures Extents(table[i := e])
  {
  }

  /** A write goes behind every other file, or stays within its own extent. */
  lemma PlacementApart(table: Table, i: Slot, e: Entry)
    requires Extents(table) && IsFile(table[i]) && PlaceWrite(table, i, Sectors(e.length)) == e.start
    ensures forall j :: 0 <= j < MAX_FILES && j != i ==> Apart(table[j], e)
  {
    forall j | 0 <= j < MAX_FILES && j != i ensures Apart(table[j], e) {
      assert Apart(table[j], table[i]);
      assert IsFile(table[j]) ==> End(table[j]) <= FreeSector(table, MAX_FILES);
    }
  }

  // ----- The way back to the root -----

  predicate Distinct(path: seq<Slot>) {
    forall j, k :: 0 <= j < k < |path| ==> path[j] != path[k]
  }

  predicate LeadsTo(e: Entry, d: Slot) { Live(e) && e.kind == DIRECTORY && e.parent == d }

  /** `path` leads from `d` up the parent links to slot 0, without repetition
      and through live directories (slot 0 itself may have been deleted). */
  predicate RootPath(table: Table, d: Slot, path: seq<Slot>) {
    && |path| > 0 && path[0] == d && path[|path|-1] == 0 && Distinct(path)
    && (forall k :: 0 <= k < |path| - 1 ==> LeadsTo(table[path[k]], path[k+1]))
  }

  /** Slots that are dead, or children of where the path starts, are not on it. */
  lemma OffPath(table: Table, d: Slot, path: seq<Slot>, i: Slot)
    requires RootPath(table, d, path) && (!Live(table[i]) || table[i].parent == d)
    ensures forall k :: 0 <= k < |path| - 1 ==> path[k] != i
  {
    forall k | 0 <= k < |path| - 1 ensures path[k] != i {
      assert LeadsTo(table[path[k]], path[k+1]) && path[k+1] != path[0];
    }
  }

  lemma RootPathUpdate(table: Table, d: Slot, path: seq<Slot>, i: Slot, e: Entry)
    requires RootPath(table, d, path) && (!Live(table[i]) || table[i].parent == d)
    ensures RootPath(table[i := e], d, path)
  {
    OffPath(table, d, path, i);
    forall k | 0 <= k < |path| - 1 ensures LeadsTo(table[i := e][path[k]], path[k+1]) {
      assert LeadsTo(table[path[k]], path[k+1]);
    }
  }

  lemma ChdirPath(fs: Fs, name: Name, path: seq<Slot>) returns (r: seq<Slot>)
    requires RootPath(fs.table, fs.cwd, path)
    ensures RootPath(fs.table, Chdir(fs, name).0.cwd, r)
    ensures name == DOT_DOT && fs.cwd != 0 ==> r == path[1..]
  {
    var d := Chdir(fs, name).0.cwd;
    if name == DOT_DOT && fs.cwd != 0 {
      r := path[1..];
      forall k | 0 <= k < |r| - 1 ensures LeadsTo(fs.table[r[k]], r[k+1]) {
        assert LeadsTo(fs.table[path[k+1]], path[k+1+1]);
      }
    } else if d == 0 {
      r := [0];
    } else if d == fs.cwd {
      r := path;
    } else {
      r := EnterPath(fs, d, path);
    }
  }

  lemma EnterPath(fs: Fs, d: Slot, path: seq<Slot>) returns (r: seq<Slot>)
    requires RootPath(fs.table, fs.cwd, path) && d != 0 && LeadsTo(fs.table[d], fs.cwd)
    ensures RootPath(fs.table, d, r)
  {
    OffPath(fs.table, fs.cwd, path, d);
    r := [d] + path;
    forall k | 0 <= k < |r| - 1 ensures LeadsTo(fs.table[r[k]], r[k+1]) {
      if k > 0 { assert LeadsTo(fs.table[path[k-1]], path[k-1+1]); }
    }
  }

  // ----- File contents -----

  /** The stored bytes of `e` are `data`, from data byte 4 on. */
  predicate KeepsSlot(e: Entry, storage: Storage, data: seq<Byte>) {
    && |data| == e.length
    && forall k :: 0 <= k < |data| && 4 <= 512 * e.start + k ==>
         storage[DATA_START + 512 * e.start + k] == data[k]
  }

  type Contents = c: seq<seq<Byte>> | |c| == MAX_FILES ghost witness NoContents()

  function NoContents(): (c: seq<seq<Byte>>)
    ensures |c| == MAX_FILES && forall i :: 0 <= i < MAX_FILES ==> c[i] == []
  {
    seq(MAX_FILES, _ => [])
  }

  predicate Keeps(fs: Fs, contents: Contents) {
    forall i :: 0 <= i < MAX_FILES && IsFile(fs.table[i]) ==>
      KeepsSlot(fs.table[i], fs.storage, contents[i])
  }

  /** Only the bytes from data byte 4 on matter. */
  lemma SameDataKeepsSlot(e: Entry, a: Storage, b: Storage, data: seq<Byte>)
    requires a[IMAGE_SIZE..] == b[IMAGE_SIZE..] && KeepsSlot(e, a, data)
    ensures KeepsSlot(e, b, data)
  {
    forall k | 0 <= k < |data| && 4 <= 512 * e.start + k
      ensures b[DATA_START + 512 * e.start + k] == data[k]
    {
      var at := DATA_START + 512 * e.start + k;
      assert a[at] == a[IMAGE_SIZE..][at - IMAGE_SIZE] && b[at] == b[IMAGE_SIZE..][at - IMAGE_SIZE];
    }
  }

  /** Replacing one entry keeps the contents of the other slots. */
  lemma ReplaceKeeps(fs: Fs, i: Slot, e: Entry, contents: Contents, data: seq<Byte>)
    requires forall j :: 0 <= j < MAX_FILES && j != i && IsFile(fs.table[j]) ==>
               KeepsSlot(fs.table[j], fs.storage, contents[j])
    requires IsFile(e) ==> KeepsSlot(e, fs.storage, data)
    ensures Keeps(Replace(fs, i, e), contents[i := data])
  {
    var after := Replace(fs, i, e);
    forall j | 0 <= j < MAX_FILES && IsFile(after.table[j])
      ensures KeepsSlot(after.table[j], after.storage, contents[i := data][j])
    {
      SameDataKeepsSlot(after.table[j], fs.storage, after.storage, contents[i := data][j]);
    }
  }

  /** Writing the extent of `e` leaves a file apart from it alone. */
  lemma StoreKeepsSlot(fs: Fs, e: Entry, data: seq<Byte>, f: Entry, other: seq<Byte>)
    requires e.length == |data|
    requires IsFile(e) && IsFile(f) && Apart(f, e) && KeepsSlot(f, fs.storage, other)
    ensures KeepsSlot(f, Stored(fs, e.start, data).storage, other)
  {
  }

  lemma StoreStores(fs: Fs, e: Entry, data: seq<Byte>)
    requires e.length == |data|
    ensures KeepsSlot(e, Stored(fs, e.start, data).storage, data)
  {
  }

  lemma StoreKeeps(fs: Fs, contents: Contents, i: Slot, e: Entry, data: seq<Byte>)
    requires Keeps(fs, contents) && IsFile(e) && e.length == |data|
    requires forall j :: 0 <= j < MAX_FILES && j != i ==> Apart(fs.table[j], e)
    ensures KeepsSlot(e, Stored(fs, e.start, data).storage, data)
    ensures forall j :: 0 <= j < MAX_FILES && j != i && IsFile(fs.table[j]) ==>
              KeepsSlot(fs.table[j], Stored(fs, e.start, data).storage, contents[j])
  {
    StoreStores(fs, e, data);
    forall j | 0 <= j < MAX_FILES && j != i && IsFile(fs.table[j])
      ensures KeepsSlot(fs.table[j], Stored(fs, e.start, data).storage, contents[j])
    {
      StoreKeepsSlot(fs, e, data, fs.table[j], contents[j]);
    }
  }

  /** `data` with the spilled length field over data bytes 0 to 3. */
  function Patched(data: seq<Byte>, start: nat, spill: seq<Byte>): seq<Byte>
    requires |spill| == 4
  {
    if start > 0 then data
    else if |data| < 4 then spill[..|data|]
    else spill + data[4..]
  }

  // ----- The invariant -----

  predicate Inv(fs: Fs, contents: Contents, path: seq<Slot>) {
    && Synced(fs)
    && Unique(fs.table) && Extents(fs.table)
    && RootPath(fs.table, fs.cwd, path)
    && Keeps(fs, contents)
  }

  function SetSlot(contents: Contents, i: int, data: seq<Byte>): Contents {
    if 0 <= i < MAX_FILES then contents[i := data] else contents
  }

  /** What was last written successfully to each slot since it was created. */
  function Track(fs: Fs, op: Op, contents: Contents): Contents
    requires Synced(fs)
  {
    if Step(fs, op).1 < 0 then contents
    else
      match op
      case CreateFile(name) => SetSlot(contents, Vacancy(fs.table, name, fs.cwd), [])
      case Mkdir(name) => SetSlot(contents, Vacancy(fs.table, name, fs.cwd), [])
      case WriteFile(name, data) => SetSlot(contents, Find(fs.table, name, fs.cwd), data)
      case _ => contents
  }

  /** What a new entry for slot `i` must satisfy to keep the table sound. */
  predicate Replaceable(fs: Fs, i: Slot, e: Entry) {
    && (!Live(fs.table[i]) || fs.table[i].parent == fs.cwd)
    && forall j :: 0 <= j < MAX_FILES && j != i ==> !SameKey(fs.table[j], e) && Apart(fs.table[j], e)
  }

  lemma ReplaceSound(fs: Fs, path: seq<Slot>, i: Slot, e: Entry)
    requires Replaceable(fs, i, e)
    requires Unique(fs.table) && Extents(fs.table) && RootPath(fs.table, fs.cwd, path)
    ensures var after := Replace(fs, i, e);
            Unique(after.table) && Extents(after.table) && RootPath(after.table, after.cwd, path)
  {
    UniqueUpdate(fs.table, i, e);
    ExtentsUpdate(fs.table, i, e);
    RootPathUpdate(fs.table, fs.cwd, path, i, e);
  }

  /** Replacing an entry whose data stay where they are. */
  lemma ReplaceInv(fs: Fs, contents: Contents, path: seq<Slot>, i: Slot, e: Entry, data: seq<Byte>)
    requires Inv(fs, contents, path) && Replaceable(fs, i, e)
    requires IsFile(e) ==> KeepsSlot(e, fs.storage, data)
    ensures Inv(Replace(fs, i, e), contents[i := data], path)
  {
    ReplaceSound(fs, path, i, e);
    ReplaceKeeps(fs, i, e, contents, data);
  }

  lemma CreateInv(fs: Fs, contents: Contents, path: seq<Slot>, name: Name, kind: nat)
    requires Inv(fs, contents, path) && kind <= DIRECTORY && Vacancy(fs.table, name, fs.cwd) >= 0
    ensures Inv(Create(fs, name, kind).0, SetSlot(contents, Vacancy(fs.table, name, fs.cwd), []), path)
  {
    var i := Vacancy(fs.table, name, fs.cwd);
    var e := Fresh(fs.table[i], name, kind, fs.cwd);
    NotFoundIsNew(fs.table, e);
    ReplaceInv(fs, contents, path, i, e, []);
  }

  lemma DeleteInv(fs: Fs, contents: Contents, path: seq<Slot>, name: Name)
    requires Inv(fs, contents, path) && Find(fs.table, name, fs.cwd) >= 0
    ensures Inv(Delete(fs, name).0, contents, path)
  {
    var i := Find(fs.table, name, fs.cwd);
    ReplaceInv(fs, contents, path, i, Killed(fs.table[i]), contents[i]);
    assert contents[i := contents[i]] == contents;
  }

  lemma RenameInv(fs: Fs, contents: Contents, path: seq<Slot>, name: Name, newName: Name)
    requires Inv(fs, contents, path) && |newName| < NAME_LENGTH
    requires Find(fs.table, name, fs.cwd) >= 0 && Find(fs.table, newName, fs.cwd) == -1
    ensures Inv(Rename(fs, name, newName).0, contents, path)
  {
    var i := Find(fs.table, name, fs.cwd);
    RenameReplaceable(fs, i, newName);
    var e := Named(fs.table[i], newName);
    assert IsFile(e) ==> KeepsSlot(fs.table[i], fs.storage, contents[i]);
    ReplaceInv(fs, contents, path, i, e, contents[i]);
    assert contents[i := contents[i]] == contents;
  }

  lemma RenameReplaceable(fs: Fs, i: Slot, newName: Name)
    requires Extents(fs.table) && |newName| < NAME_LENGTH
    requires Live(fs.table[i]) && fs.table[i].parent == fs.cwd && Find(fs.table, newName, fs.cwd) == -1
    ensures Replaceable(fs, i, Named(fs.table[i], newName))
  {
    var e := Named(fs.table[i], newName);
    NotFoundIsNew(fs.table, e);
    forall j | 0 <= j < MAX_FILES && j != i ensures Apart(fs.table[j], e) {
      assert Apart(fs.table[j], fs.table[i]);
    }
  }

  /** Writing the data and placing the entry over it. */
  lemma PlaceInv(fs: Fs, contents: Contents, path: seq<Slot>, i: Slot, start: nat, data: Buffer)
    requires Inv(fs, contents, path) && start == PlaceWrite(fs.table, i, Sectors(|data|))
    requires Live(fs.table[i]) && fs.table[i].parent == fs.cwd
    ensures start + Sectors(|data|) <= DATA_SECTORS
    ensures Inv(Replace(Stored(fs, start, data), i, Placed(fs.table[i], start, |data|)), contents[i := data], path)
  {
    var e := Placed(fs.table[i], start, |data|);
    PlacementApart(fs.table, i, e);
    forall j | 0 <= j < MAX_FILES && j != i ensures !SameKey(fs.table[j], e) {
      assert !SameKey(fs.table[j], fs.table[i]);
    }
    ReplaceSound(Stored(fs, start, data), path, i, e);
    StoreKeeps(fs, contents, i, e, data);
    ReplaceKeeps(Stored(fs, start, data), i, e, contents, data);
  }

  lemma WriteInv(fs: Fs, contents: Contents, path: seq<Slot>, name: Name, data: Buffer)
    requires Inv(fs, contents, path) && Find(fs.table, name, fs.cwd) >= 0
    requires PlaceWrite(fs.table, Find(fs.table, name, fs.cwd), Sectors(|data|)) >= 0
    ensures Inv(Write(fs, name, data).0, SetSlot(contents, Find(fs.table, name, fs.cwd), data), path)
  {
    var i := Find(fs.table, name, fs.cwd);
    PlaceInv(fs, contents, path, i, PlaceWrite(fs.table, i, Sectors(|data|)), data);
  }

  lemma CreateStep(fs: Fs, contents: Contents, path: seq<Slot>, op: Op)
    requires Inv(fs, contents, path) && (op.CreateFile? || op.Mkdir?) && Step(fs, op).1 >= 0
    ensures Inv(Step(fs, op).0, Track(fs, op, contents), path)
  {
    CreateInv(fs, contents, path, op.name, if op.CreateFile? then FILE else DIRECTORY);
  }

  lemma ChangeStep(fs: Fs, contents: Contents, path: seq<Slot>, op: Op)
    requires Inv(fs, contents, path) && (op.DeleteFile? || op.RenameFile? || op.WriteFile?) && Step(fs, op).1 >= 0
    ensures Inv(Step(fs, op).0, Track(fs, op, contents), path)
  {
    match op
    case DeleteFile(name) => DeleteInv(fs, contents, path, name);
    case RenameFile(name, newName) => RenameInv(fs, contents, path, name, newName);
    case WriteFile(name, data) => WriteInv(fs, contents, path, name, data);
  }

  /** Every operation keeps the invariant. */
  lemma StepInv(fs: Fs, contents: Contents, path: seq<Slot>, op: Op) returns (r: seq<Slot>)
    requires Inv(fs, contents, path)
    ensures Inv(Step(fs, op).0, Track(fs, op, contents), r)
  {
    r := path;
    if Step(fs, op).1 < 0 {
      FailureChangesNothing(fs, op);
    } else if op.CreateFile? || op.Mkdir? {
      CreateStep(fs, contents, path, op);
    } else if op.ChangeDir? {
      r := ChdirPath(fs, op.name, path);
    } else if op.Reinit? {
      ReinitRestores(fs);
      r := [0];
    } else {
      ChangeStep(fs, contents, path, op);
    }
  }

  // ----- Reachable states -----

  /** Static storage starts out as zeros. */
  function PowerOn(): Fs { Fs(BlankTable(), ZeroBytes(STORAGE_SIZE), 0) }

  lemma PowerOnHasNoMagic()
    ensures !HasMagic(PowerOn().storage)
  {
    var b := PowerOn().storage[..4];
    assert b[0] == 0 && b[1] == 0 && b[2] == 0 && b[3] == 0;
  }

  datatype World = World(fs: Fs, contents: Contents)

  /** The state after bdfs_init and then `ops`, and what was last written where. */
  function Run(ops: seq<Op>): (w: World)
    ensures Synced(w.fs)
  {
    if ops == [] then
      PowerOnHasNoMagic();
      World(Init(PowerOn()), NoContents())
    else
      var w, op := Run(ops[..|ops|-1]), ops[|ops|-1];
      World(Step(w.fs, op).0, Track(w.fs, op, w.contents))
  }

  /** Tables on which no file has been written yet. */
  predicate Unwritten(table: Table) {
    Unique(table) && forall i :: 0 <= i < MAX_FILES ==> table[i].length == 0
  }

  lemma AddUnwritten(table: Table, name: Name, parent: Slot)
    requires Unwritten(table)
    ensures Unwritten(AddDirectory(table, name, parent))
  {
    var i := Vacancy(table, name, parent);
    if i >= 0 {
      var e := Fresh(table[i], name, DIRECTORY, parent);
      NotFoundIsNew(table, e);
      UniqueUpdate(table, i, e);
    }
  }

  lemma PopulateUnwritten(t0: Table)
    requires Unwritten(t0)
    ensures Unwritten(Populate(t0))
  {
    var t1 := AddDirectory(t0, SOUL, 0);
    AddUnwritten(t0, SOUL, 0);
    var t2 := AddDirectory(t1, CORTEX, 0);
    AddUnwritten(t1, CORTEX, 0);
    var t3, vault := AddDirectory(t2, VAULT, 0), Vacancy(t2, VAULT, 0);
    AddUnwritten(t2, VAULT, 0);
    var t4 := AddDirectory(t3, CHROME, 0);
    AddUnwritten(t3, CHROME, 0);
    var t5 := AddDirectory(t4, DRIFT, 0);
    AddUnwritten(t4, DRIFT, 0);
    var t6 := AddDirectory(t5, GHOST, 0);
    AddUnwritten(t5, GHOST, 0);
    if vault >= 0 { AddUnwritten(t6, CYPHER, vault); }
  }

  lemma UnwrittenInv(fs: Fs)
    requires Synced(fs) && fs.cwd == 0 && Unwritten(fs.table)
    ensures Inv(fs, NoContents(), [0])
  {
  }

  lemma BootInv()
    ensures Inv(Run([]).fs, Run([]).contents, [0])
  {
    PowerOnHasNoMagic();
    assert forall i :: 0 < i < MAX_FILES ==> !Live(RootOnly()[i]);
    PopulateUnwritten(RootOnly());
    UnwrittenInv(Init(PowerOn()));
  }

  /** The invariant holds in every reachable state. */
  lemma {:induction false} RunInv(ops: seq<Op>) returns (path: seq<Slot>)
    ensures Inv(Run(ops).fs, Run(ops).contents, path)
  {
    if ops == [] {
      BootInv();
      path := [0];
    } else {
      path := RunInv(ops[..|ops|-1]);
      var w := Run(ops[..|ops|-1]);
      path := StepInv(w.fs, w.contents, path, ops[|ops|-1]);
    }
  }

  // ----- What the invariant means to a user -----

  /** One byte of a file. */
  lemma BytePatched(e: Entry, storage: Storage, data: seq<Byte>, k: nat)
    requires KeepsSlot(e, storage, data) && k < e.length
    ensures var spill := storage[DATA_START..IMAGE_SIZE];
            |Patched(data, e.start, spill)| == e.length
            && Patched(data, e.start, spill)[k] == storage[DATA_START + 512 * e.start + k]
  {
    var spill, at := storage[DATA_START..IMAGE_SIZE], DATA_START + 512 * e.start + k;
    if e.start == 0 && k < 4 {
      assert spill[k] == storage[DATA_START + k];
    } else {
      assert storage[at] == data[k];
    }
  }

  lemma BytesArePatched(fs: Fs, contents: Contents, i: Slot)
    requires Synced(fs) && Keeps(fs, contents) && IsFile(fs.table[i])
    ensures FileBytes(fs, i) == Patched(contents[i], fs.table[i].start, LE32(fs.table[63].length))
  {
    var e, data := fs.table[i], contents[i];
    FirstDataBytes(fs);
    var spill := fs.storage[DATA_START..IMAGE_SIZE];
    assert KeepsSlot(e, fs.storage, data);
    assert |Patched(data, e.start, spill)| == e.length;
    forall k | 0 <= k < e.length ensures FileBytes(fs, i)[k] == Patched(data, e.start, spill)[k] {
      BytePatched(e, fs.storage, data, k);
      assert FileBytes(fs, i)[k] == fs.storage[DATA_START + 512 * e.start + k];
    }
  }

  /** In every reachable state, reading a file returns what was last written to
      it, except that data bytes 0 to 3 hold the length field of slot 63. */
  lemma ReadsLastWrite(ops: seq<Op>, name: Name)
    requires Read(Run(ops).fs, name).0 == 0
    ensures var w := Run(ops);
            var i := Find(w.fs.table, name, w.fs.cwd);
            Read(w.fs, name).1 == Patched(w.contents[i], w.fs.table[i].start, LE32(w.fs.table[63].length))
  {
    var path := RunInv(ops);
    var w := Run(ops);
    BytesArePatched(w.fs, w.contents, Find(w.fs.table, name, w.fs.cwd));
  }

  lemma PatchedWhen(data: seq<Byte>, spill: seq<Byte>)
    requires |spill| == 4
    ensures var n := if |data| < 4 then |data| else 4;
            Patched(data, 0, spill) == data <==> data[..n] == spill[..n]
  {
    var n := if |data| < 4 then |data| else 4;
    assert data == data[..n] + data[n..];
    assert Patched(data, 0, spill) == spill[..n] + data[n..];
    assert Patched(data, 0, spill)[..n] == spill[..n];
  }

  /** So a file reads back exactly if and only if it does not start at sector 0,
      or its first bytes happen to agree with the length field of slot 63. */
  lemma ReadsExactlyWhen(ops: seq<Op>, name: Name)
    requires Read(Run(ops).fs, name).0 == 0
    ensures var w := Run(ops);
            var i := Find(w.fs.table, name, w.fs.cwd);
            var data, n := w.contents[i], if |w.contents[i]| < 4 then |w.contents[i]| else 4;
            Read(w.fs, name).1 == data <==>
            w.fs.table[i].start > 0 || data[..n] == LE32(w.fs.table[63].length)[..n]
  {
    ReadsLastWrite(ops, name);
    var w := Run(ops);
    PatchedWhen(w.contents[Find(w.fs.table, name, w.fs.cwd)], LE32(w.fs.table[63].length));
  }

  /** What a read right after a successful write returns. */
  lemma ReadAfterWrite(fs: Fs, contents: Contents, path: seq<Slot>, name: Name, data: Buffer)
    requires Inv(fs, contents, path) && Write(fs, name, data).1 >= 0
    ensures Write(fs, name, data).1 == |data|
    ensures var after, i := Write(fs, name, data).0, Find(fs.table, name, fs.cwd);
            && 0 <= i < MAX_FILES
            && Read(after, name) == (0, Patched(data, after.table[i].start, LE32(after.table[63].length)))
  {
    var i := Find(fs.table, name, fs.cwd);
    WriteInv(fs, contents, path, name, data);
    var after := Write(fs, name, data).0;
    assert Matches(after.table[i], name, after.cwd);
    FindIsTheMatch(after.table, name, after.cwd, i);
    BytesArePatched(after, contents[i := data], i);
  }

  /** In every reachable state the extents of live non-empty files are pairwise
      disjoint and lie in the 64 data sectors. */
  lemma ExtentsDisjoint(ops: seq<Op>, i: Slot, j: Slot)
    requires i != j
    requires IsFile(Run(ops).fs.table[i]) && Run(ops).fs.table[i].length > 0
    requires IsFile(Run(ops).fs.table[j]) && Run(ops).fs.table[j].length > 0
    ensures var a, b := Run(ops).fs.table[i], Run(ops).fs.table[j];
            && (End(a) <= b.start || End(b) <= a.start)
            && End(a) <= DATA_SECTORS && End(b) <= DATA_SECTORS
  {
    var path := RunInv(ops);
    assert Apart(Run(ops).fs.table[i], Run(ops).fs.table[j]);
  }

  /** `n` times `cd ..`. */
  function Climb(fs: Fs, n: nat): Fs
    decreases n
  {
    if n == 0 then fs else Climb(Chdir(fs, DOT_DOT).0, n - 1)
  }

  lemma {:induction false} ClimbPath(fs: Fs, path: seq<Slot>)
    requires RootPath(fs.table, fs.cwd, path)
    ensures Climb(fs, |path| - 1) == fs.(cwd := 0)
    decreases |path|
  {
    if |path| > 1 {
      var r := ChdirPath(fs, DOT_DOT, path);
      assert fs.cwd != 0;
      ClimbPath(Chdir(fs, DOT_DOT).0, r);
    }
  }

  function Below(n: nat): (s: set<nat>)
    ensures |s| == n && forall k: nat :: k in s <==> k < n
  {
    if n == 0 then {} else Below(n - 1) + {n - 1}
  }

  lemma {:induction false} PigeonHole(path: seq<Slot>, s: set<nat>)
    requires Distinct(path) && forall k :: 0 <= k < |path| ==> path[k] in s
    ensures |path| <= |s|
  {
    if path != [] {
      var n := |path| - 1;
      PigeonHole(path[..n], s - {path[n]});
    }
  }

  /** From every reachable state at most 63 times `cd ..` lead to the root, by
      way of live directories only. */
  lemma RootIsNear(ops: seq<Op>) returns (path: seq<Slot>)
    ensures RootPath(Run(ops).fs.table, Run(ops).fs.cwd, path) && |path| - 1 <= 63
    ensures Climb(Run(ops).fs, |path| - 1) == Run(ops).fs.(cwd := 0)
  {
    path := RunInv(ops);
    PigeonHole(path, Below(MAX_FILES));
    ClimbPath(Run(ops).fs, path);
  }

  /** In every reachable state a name denotes at most one live entry of a
      directory, and a lookup finds exactly that one; every name field is
      terminated within its 16 bytes. */
  lemma NamesAreUnique(ops: seq<Op>, name: Name, parent: nat, i: Slot)
    ensures var table := Run(ops).fs.table;
            && (Find(table, name, parent) == i <==> Matches(table[i], name, parent))
            && |table[i].name| == NAME_LENGTH && 0 in table[i].name
  {
    var path := RunInv(ops);
    FindIsTheMatch(Run(ops).fs.table, name, parent, i);
  }
}
