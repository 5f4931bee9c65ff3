/** BDFS on values: the entry table, its serialised image, and every operation
    as a function from state to state and return code. */
module BdfsModel {
  import opened Bytes

  const MAX_FILES: nat := 64
  const NAME_LENGTH: nat := 16
  const DATA_SECTORS: nat := 64
  const DATA_START: nat := 2048      // 4 table sectors of 512 bytes
  const IMAGE_SIZE: nat := 2052      // the magic number and 64 entries of 32 bytes
  const STORAGE_SIZE: nat := 34816   // 68 sectors of 512 bytes
  const MAGIC: nat := 0x42444653
  const FILE: nat := 0
  const DIRECTORY: nat := 1

  /** The contents of a C string. */
  type Name = s: seq<Byte> | 0 !in s witness []

  /** A file table entry as it may lie in storage. */
  datatype Record = Record(name: seq<Byte>, kind: nat, parent: nat, start: nat, length: nat)

  function Sectors(bytes: nat): (s: nat)
    ensures bytes <= 512 * s < bytes + 512
  {
    (bytes + 511) / 512
  }

  /** A good entry: its name is terminated and its extent lies on the disk. */
  predicate EntryOk(e: Record) {
    && |e.name| == NAME_LENGTH && 0 in e.name
    && e.kind <= DIRECTORY && e.parent < MAX_FILES
    && e.start + Sectors(e.length) <= DATA_SECTORS
  }

  type Entry = e: Record | EntryOk(e)
    ghost witness Record([0, 0, 0, 0, 0, 0, 0, 0, 0, 0, 0, 0, 0, 0, 0, 0], FILE, 0, 0, 0)

  function Blank(): (e: Entry)
    ensures !Live(e) && e.start == e.length == 0
  {
    var e := Record([0, 0, 0, 0, 0, 0, 0, 0, 0, 0, 0, 0, 0, 0, 0, 0], FILE, 0, 0, 0);
    assert e.name[0] == 0;
    e
  }

  type Slot = i: nat | i < MAX_FILES

  type Table = t: seq<Entry> | |t| == MAX_FILES ghost witness BlankTable()

  function BlankTable(): (t: seq<Entry>)
    ensures |t| == MAX_FILES && forall i :: 0 <= i < MAX_FILES ==> t[i] == Blank()
  {
    seq(MAX_FILES, _ => Blank())
  }

  type Storage = s: seq<Byte> | |s| == STORAGE_SIZE ghost witness ZeroBytes(STORAGE_SIZE)

  function ZeroBytes(n: nat): (s: seq<Byte>)
    ensures |s| == n && forall k :: 0 <= k < n ==> s[k] == 0
  {
    seq(n, _ => 0)
  }

  datatype Fs = Fs(table: Table, storage: Storage, cwd: Slot)

  // ----- Lookup -----

  predicate Live(e: Entry) { e.name[0] != 0 }

  predicate Matches(e: Entry, name: Name, parent: nat) {
    Live(e) && e.parent == parent && CStr(e.name) == name
  }

  /** find_entry_in_dir: the least matching slot from `i` on. */
  function FindFrom(table: Table, name: Name, parent: nat, i: nat): (r: int)
    requires i <= MAX_FILES
    ensures r == -1 || (i <= r < MAX_FILES && Matches(table[r], name, parent))
    ensures forall k :: i <= k < (if r == -1 then MAX_FILES else r) ==> !Matches(table[k], name, parent)
    decreases |table| - i
  {
    if i == MAX_FILES then -1
    else if Matches(table[i], name, parent) then i
    else FindFrom(table, name, parent, i + 1)
  }

  function Find(table: Table, name: Name, parent: nat): (r: int)
    ensures r == -1 || (0 <= r < MAX_FILES && Matches(table[r], name, parent))
  {
    FindFrom(table, name, parent, 0)
  }

  /** find_free_entry. */
  function FreeFrom(table: Table, i: nat): (r: int)
    requires i <= MAX_FILES
    ensures r == -1 || (i <= r < MAX_FILES && !Live(table[r]))
    ensures forall k :: i <= k < (if r == -1 then MAX_FILES else r) ==> Live(table[k])
    decreases |table| - i
  {
    if i == MAX_FILES then -1
    else if !Live(table[i]) then i
    else FreeFrom(table, i + 1)
  }

  function End(e: Entry): nat { e.start + Sectors(e.length) }

  predicate IsFile(e: Entry) { Live(e) && e.kind == FILE }

  /** find_free_sector: where the last live file among the first `n` ends. */
  function FreeSector(table: Table, n: nat): (s: nat)
    requires n <= MAX_FILES
    ensures s <= DATA_SECTORS
    ensures forall k :: 0 <= k < n && IsFile(table[k]) ==> End(table[k]) <= s
  {
    if n == 0 then 0
    else
      var s := FreeSector(table, n - 1);
      if IsFile(table[n - 1]) && End(table[n - 1]) > s then End(table[n - 1]) else s
  }

  // ----- Serialisation -----

  function Encode(e: Entry): (b: seq<Byte>)
    ensures |b| == 32
  {
    e.name + LE32(e.kind) + LE32(e.parent) + LE32(e.start) + LE32(e.length)
  }

  function Decode(b: seq<Byte>): Record
    requires |b| == 32
  {
    Record(b[..16], FromLE32(b[16..20]), FromLE32(b[20..24]), FromLE32(b[24..28]), FromLE32(b[28..32]))
  }

  function EncodeTable(table: seq<Entry>): (b: seq<Byte>)
    ensures |b| == 32 * |table|
  {
    if table == [] then []
    else EncodeTable(table[..|table|-1]) + Encode(table[|table|-1])
  }

  lemma EncodeNext(table: seq<Entry>, i: nat)
    requires i < |table|
    ensures EncodeTable(table[..i+1]) == EncodeTable(table[..i]) + Encode(table[i])
  {
    assert table[..i+1][..i] == table[..i];
  }

  /** What the table region should hold. It is four bytes longer than the four
      sectors set aside for it, so it ends in data bytes 0 to 3. */
  function Image(table: Table): (b: seq<Byte>)
    ensures |b| == IMAGE_SIZE
  {
    LE32(MAGIC) + EncodeTable(table)
  }

  /** The table region agrees with the table. */
  predicate Synced(fs: Fs) { fs.storage[..IMAGE_SIZE] == Image(fs.table) }

  /** bdfs_sync_file_table. */
  function Sync(fs: Fs): (r: Fs)
    ensures Synced(r) && r.table == fs.table && r.cwd == fs.cwd
    ensures r.storage[IMAGE_SIZE..] == fs.storage[IMAGE_SIZE..]
  {
    fs.(storage := Image(fs.table) + fs.storage[IMAGE_SIZE..])
  }

  /** Changes the entry in slot `i`, then syncs. */
  function Replace(fs: Fs, i: Slot, e: Entry): (r: Fs)
    ensures Synced(r) && r.table == fs.table[i := e] && r.cwd == fs.cwd
    ensures r.storage[IMAGE_SIZE..] == fs.storage[IMAGE_SIZE..]
  {
    Sync(fs.(table := fs.table[i := e]))
  }

  // ----- Operations -----

  /** strcpy into a name field that is long enough. */
  function SetName(raw: seq<Byte>, name: Name): (r: seq<Byte>)
    requires |raw| == NAME_LENGTH && |name| < NAME_LENGTH
    ensures |r| == NAME_LENGTH && CStr(r) == name && 0 in r
  {
    var rest := raw[|name|+1..];
    CStrOf(name, rest);
    var r := name + [0] + rest;
    assert r[|name|] == 0;
    r
  }

  // The changes that the operations make to one entry.

  function Named(e: Entry, name: Name): (r: Entry)
    requires |name| < NAME_LENGTH
    ensures CStr(r.name) == name
  {
    e.(name := SetName(e.name, name))
  }

  function Fresh(e: Entry, name: Name, kind: nat, parent: Slot): (r: Entry)
    requires |name| < NAME_LENGTH && kind <= DIRECTORY
    ensures CStr(r.name) == name
  {
    Record(SetName(e.name, name), kind, parent, 0, 0)
  }

  function Killed(e: Entry): (r: Entry)
    ensures !Live(r)
  {
    var r := e.(name := e.name[0 := 0]);
    assert r.name[0] == 0;
    r
  }

  function Placed(e: Entry, start: nat, length: nat): (r: Entry)
    requires start + Sectors(length) <= DATA_SECTORS
    ensures Live(r) == Live(e)
  {
    e.(start := start, length := length)
  }

  /** Where a new entry would go, or why it cannot be made: the checks shared
      by bdfs_create_file and bdfs_create_dir_entry. */
  function Vacancy(table: Table, name: Name, parent: nat): (i: int)
    ensures i < MAX_FILES
    ensures 0 <= i ==> |name| < NAME_LENGTH && !Live(table[i]) && Find(table, name, parent) == -1
  {
    if |name| >= NAME_LENGTH then -1
    else if Find(table, name, parent) != -1 then -2
    else
      var i := FreeFrom(table, 0);
      if i == -1 then -3 else i
  }

  /** bdfs_create_dir_entry: the table after it. */
  function AddDirectory(table: Table, name: Name, parent: Slot): Table {
    var i := Vacancy(table, name, parent);
    if i < 0 then table else table[i := Fresh(table[i], name, DIRECTORY, parent)]
  }

  function Create(fs: Fs, name: Name, kind: nat): (r: (Fs, int))
    requires kind <= DIRECTORY
    ensures Synced(fs) ==> Synced(r.0)
    ensures r.1 < 0 ==> r.0 == fs
  {
    var i := Vacancy(fs.table, name, fs.cwd);
    if i < 0 then (fs, i) else (Replace(fs, i, Fresh(fs.table[i], name, kind, fs.cwd)), 0)
  }

  function Delete(fs: Fs, name: Name): (r: (Fs, int))
    ensures Synced(fs) ==> Synced(r.0)
    ensures r.1 < 0 ==> r.0 == fs
  {
    var i := Find(fs.table, name, fs.cwd);
    if i == -1 then (fs, -1) else (Replace(fs, i, Killed(fs.table[i])), 0)
  }

  function Rename(fs: Fs, oldName: Name, newName: Name): (r: (Fs, int))
    ensures Synced(fs) ==> Synced(r.0)
    ensures r.1 < 0 ==> r.0 == fs
  {
    if |newName| >= NAME_LENGTH then (fs, -1)
    else
      var i := Find(fs.table, oldName, fs.cwd);
      if i == -1 then (fs, -2)
      else if Find(fs.table, newName, fs.cwd) != -1 then (fs, -3)
      else (Replace(fs, i, Named(fs.table[i], newName)), 0)
  }

  const DOT: Name := [46]
  const DOT_DOT: Name := [46, 46]

  function Chdir(fs: Fs, name: Name): (r: (Fs, int))
    ensures r.0.table == fs.table && r.0.storage == fs.storage
    ensures r.1 < 0 ==> r.0 == fs
  {
    if name == DOT then (fs, 0)
    else if name == DOT_DOT then
      (if fs.cwd != 0 then fs.(cwd := fs.table[fs.cwd].parent) else fs, 0)
    else
      var i := Find(fs.table, name, fs.cwd);
      if i == -1 then (fs, -1)
      else if fs.table[i].kind != DIRECTORY then (fs, -2)
      else (fs.(cwd := i), 0)
  }

  /** The sector a write to slot `i` would start at, or an error code. */
  function PlaceWrite(table: Table, i: Slot, needed: nat): (r: int)
    ensures r >= 0 ==> r + needed <= DATA_SECTORS && table[i].kind == FILE
  {
    var e := table[i];
    if e.kind != FILE then -3
    else if e.length == 0 then
      var start := FreeSector(table, MAX_FILES);
      if start + needed > DATA_SECTORS then -2 else start
    else if needed > Sectors(e.length) then -2
    else e.start
  }

  /** A caller's buffer: `bytes_to_write + 511` must not wrap. */
  type Buffer = b: seq<Byte> | |b| + 511 < U32 witness []

  /** The bytes of the file at `start` become `data`. */
  function Stored(fs: Fs, start: nat, data: seq<Byte>): Fs
    requires start + Sectors(|data|) <= DATA_SECTORS
  {
    fs.(storage := Splice(fs.storage, DATA_START + 512 * start, data))
  }

  /** bdfs_write_file. */
  function Write(fs: Fs, name: Name, data: Buffer): (r: (Fs, int))
    ensures Synced(fs) ==> Synced(r.0)
    ensures r.1 < 0 ==> r.0 == fs
  {
    var i := Find(fs.table, name, fs.cwd);
    if i == -1 then (fs, -1)
    else
      var start := PlaceWrite(fs.table, i, Sectors(|data|));
      if start < 0 then (fs, start)
      else (Replace(Stored(fs, start, data), i, Placed(fs.table[i], start, |data|)), |data|)
  }

  function FileBytes(fs: Fs, i: Slot): (b: seq<Byte>)
    ensures |b| == fs.table[i].length
  {
    var at := DATA_START + 512 * fs.table[i].start;
    fs.storage[at..at + fs.table[i].length]
  }

  /** bdfs_read_file: return code and the bytes copied out. */
  function Read(fs: Fs, name: Name): (r: (int, seq<Byte>)) {
    var i := Find(fs.table, name, fs.cwd);
    if i == -1 then (-1, [])
    else if fs.table[i].kind != FILE then (-2, [])
    else (0, FileBytes(fs, i))
  }

  // ----- Initialisation -----

  const ROOT: Name := [47]                              // "/"
  const SOUL: Name := [115, 111, 117, 108]              // "soul"
  const CORTEX: Name := [99, 111, 114, 116, 101, 120]   // "cortex"
  const VAULT: Name := [118, 97, 117, 108, 116]         // "vault"
  const CHROME: Name := [99, 104, 114, 111, 109, 101]   // "chrome"
  const DRIFT: Name := [100, 114, 105, 102, 116]        // "drift"
  const GHOST: Name := [103, 104, 111, 115, 116]        // "ghost"
  const CYPHER: Name := [99, 121, 112, 104, 101, 114]   // "cypher"

  /** The memset table with the root directory at slot 0. */
  function RootOnly(): Table { BlankTable()[0 := Fresh(Blank(), ROOT, DIRECTORY, 0)] }

  /** Adds the default directories. */
  function Populate(root: Table): Table {
    var t1 := AddDirectory(root, SOUL, 0);
    var t2 := AddDirectory(t1, CORTEX, 0);
    var t3, vault := AddDirectory(t2, VAULT, 0), Vacancy(t2, VAULT, 0);
    var t4 := AddDirectory(t3, CHROME, 0);
    var t5 := AddDirectory(t4, DRIFT, 0);
    var t6 := AddDirectory(t5, GHOST, 0);
    if vault >= 0 then AddDirectory(t6, CYPHER, vault) else t6
  }

  /** The entry that bdfs_init finds in storage for slot `i`. */
  function StoredRecord(storage: Storage, i: Slot): Record {
    Decode(storage[4 + 32 * i..36 + 32 * i])
  }

  /** The stored table is a good one. */
  predicate StoredOk(storage: Storage) {
    forall i :: 0 <= i < MAX_FILES ==> EntryOk(StoredRecord(storage, i))
  }

  function StoredTable(storage: Storage): (t: Table)
    requires StoredOk(storage)
    ensures forall i :: 0 <= i < MAX_FILES ==> t[i] == StoredRecord(storage, i)
  {
    seq<Entry>(MAX_FILES, i requires 0 <= i < MAX_FILES => StoredRecord(storage, i))
  }

  predicate HasMagic(storage: Storage) { FromLE32(storage[..4]) == MAGIC }

  /** bdfs_init. A stored table is taken as it is, so it has to be a good one. */
  function Init(fs: Fs): (r: Fs)
    requires HasMagic(fs.storage) ==> StoredOk(fs.storage)
    ensures !HasMagic(fs.storage) ==> Synced(r)
  {
    if !HasMagic(fs.storage) then Sync(Fs(Populate(RootOnly()), fs.storage, 0))
    else Fs(StoredTable(fs.storage), fs.storage, 0)
  }
}
