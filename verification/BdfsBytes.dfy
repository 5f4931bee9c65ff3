/** BDFS down to single bytes: where a write lands, what the serialised table looks
    like, what happens to the 16 bytes of a name, and the tree that a new file
    system starts with. */
module BdfsBytes {
  import opened Bytes
  import opened BdfsModel
  import opened BdfsRuns
  import opened BdfsLaws

  // ----- Where a write lands -----

  predicate LiveFile(e: Entry) { e.name[0] != 0 && e.kind == 0 }

  /** Sector `s` is the first one behind all live files. */
  predicate FirstBehind(table: Table, s: nat) {
    && (forall k :: 0 <= k < 64 && LiveFile(table[k]) ==> 512 * table[k].start + table[k].length <= 512 * s)
    && (s == 0 || exists k :: 0 <= k < 64 && LiveFile(table[k])
                              && 512 * s < 512 * table[k].start + table[k].length + 512)
  }

  lemma FreeSectorIsBehind(table: Table)
    ensures FirstBehind(table, FreeSector(table, MAX_FILES))
  {
    FreeSectorAttained(table, MAX_FILES);
  }

  lemma OnlyOneBehind(table: Table, s: nat, t: nat)
    requires FirstBehind(table, s) && FirstBehind(table, t)
    ensures s == t
  {
  }

  lemma SectorsAre(n: nat, s: nat)
    ensures 512 * s < n + 512 && n <= 512 * s ==> Sectors(n) == s
    ensures s + Sectors(n) <= DATA_SECTORS <==> 512 * s + n <= 32768
    ensures Sectors(n) <= s <==> n <= 512 * s
  {
  }

  lemma PlaceLands(table: Table, i: Slot, n: nat, s: nat)
    requires table[i].kind == FILE
    ensures var r := PlaceWrite(table, i, Sectors(n));
            && (table[i].length == 0 && FirstBehind(table, s) ==> r == if 512 * s + n <= 32768 then s else -2)
            && (table[i].length > 0 && 512 * s < table[i].length + 512 && table[i].length <= 512 * s ==>
                  r == if n <= 512 * s then table[i].start else -2)
  {
    FreeSectorIsBehind(table);
    SectorsAre(table[i].length, s);
    SectorsAre(n, s);
    if FirstBehind(table, s) { OnlyOneBehind(table, s, FreeSector(table, MAX_FILES)); }
  }

  /** A file without data is placed in the first sector behind all live files,
      if the data fit there; a file with data stays where it is, if they fit the
      sectors it has. */
  lemma WriteLands(fs: Fs, name: Name, data: Buffer, s: nat)
    requires Write(fs, name, data).1 !in {-1, -3}
    ensures var (after, rc) := Write(fs, name, data);
            var i := Find(fs.table, name, fs.cwd);
            && i >= 0
            && (fs.table[i].length == 0 && FirstBehind(fs.table, s) ==>
                  if 512 * s + |data| <= 32768 then rc == |data| && after.table[i].start == s else rc == -2)
            && (fs.table[i].length > 0 && 512 * s < fs.table[i].length + 512 && fs.table[i].length <= 512 * s ==>
                  if |data| <= 512 * s then rc == |data| && after.table[i].start == fs.table[i].start else rc == -2)
  {
    PlaceLands(fs.table, Find(fs.table, name, fs.cwd), |data|, s);
  }

  lemma SomeSectorIsBehind(table: Table)
    ensures exists s: nat :: FirstBehind(table, s)
  {
    FreeSectorIsBehind(table);
  }

  /** A successful write changes the bytes of the file, and behind the serialised
      table no others. */
  lemma WriteBytes(fs: Fs, name: Name, data: Buffer, b: nat)
    requires Write(fs, name, data).1 >= 0 && 2052 <= b < |fs.storage|
    ensures var (after, i) := (Write(fs, name, data).0, Find(fs.table, name, fs.cwd));
            var at := 2048 + 512 * after.table[i].start;
            after.storage[b] == if at <= b < at + |data| then data[b - at] else fs.storage[b]
  {
    var i := Find(fs.table, name, fs.cwd);
    var start := PlaceWrite(fs.table, i, Sectors(|data|));
    var after := Write(fs, name, data).0;
    var stored := Stored(fs, start, data);
    assert after.storage[b] == after.storage[IMAGE_SIZE..][b - IMAGE_SIZE];
    assert stored.storage[b] == stored.storage[IMAGE_SIZE..][b - IMAGE_SIZE];
  }

  /** Reading fails exactly for a missing entry and a directory; otherwise it
      returns the bytes that lie where the entry says. */
  lemma ReadBytes(fs: Fs, name: Name)
    ensures var (rc, data) := Read(fs, name);
            var i := Find(fs.table, name, fs.cwd);
            && rc in {0, -1, -2}
            && (rc == -1 <==> !Exists(fs.table, name, fs.cwd))
            && (rc == -2 <==> i >= 0 && fs.table[i].kind == 1)
            && (rc < 0 ==> data == [])
            && (rc == 0 ==>
                  && |data| == fs.table[i].length
                  && forall k :: 0 <= k < |data| ==> data[k] == fs.storage[2048 + 512 * fs.table[i].start + k])
  {
    FindMeans(fs.table, name, fs.cwd);
  }

  // ----- The serialised table -----

  /** The little-endian word at `at`. */
  predicate WordAt(b: seq<Byte>, at: nat, n: nat)
    requires at + 4 <= |b|
  {
    forall k :: 0 <= k < 4 ==> b[at + k] as nat == n / [1, 256, 65536, 16777216][k] % 256
  }

  lemma LE32Is(b: seq<Byte>, at: nat, n: nat)
    requires at + 4 <= |b| && b[at..at + 4] == LE32(n)
    ensures WordAt(b, at, n)
  {
    forall k | 0 <= k < 4 ensures b[at + k] as nat == n / [1, 256, 65536, 16777216][k] % 256 {
      assert b[at + k] == b[at..at + 4][k];
      LE32Bytes(n, k);
    }
  }

  /** Name, type, parent, first sector and length, in this order. */
  predicate EntryAt(b: seq<Byte>, at: nat, e: Entry)
    requires at + 32 <= |b|
  {
    && b[at..at + 16] == e.name
    && WordAt(b, at + 16, e.kind) && WordAt(b, at + 20, e.parent)
    && WordAt(b, at + 24, e.start) && WordAt(b, at + 28, e.length)
  }

  lemma Part(b: seq<Byte>, at: nat, n: nat, i: nat, j: nat)
    requires at + n <= |b| && i <= j <= n
    ensures b[at..at + n][i..j] == b[at + i..at + j]
  {
    var whole, part := b[at..at + n], b[at + i..at + j];
    assert forall k :: 0 <= k < j - i ==> whole[i..j][k] == part[k];
  }

  lemma EncodeParts(e: Entry)
    ensures var b := Encode(e);
            && b[0..16] == e.name && b[16..20] == LE32(e.kind) && b[20..24] == LE32(e.parent)
            && b[24..28] == LE32(e.start) && b[28..32] == LE32(e.length)
  {
  }

  lemma EncodedEntry(b: seq<Byte>, at: nat, e: Entry)
    requires at + 32 <= |b| && b[at..at + 32] == Encode(e)
    ensures EntryAt(b, at, e)
  {
    EncodeParts(e);
    forall i, j | 0 <= i <= j <= 32 ensures b[at + i..at + j] == Encode(e)[i..j] { Part(b, at, 32, i, j); }
    assert b[at + 0..at + 16] == e.name;
    assert b[at + 16..at + 20] == LE32(e.kind) && b[at + 20..at + 24] == LE32(e.parent);
    assert b[at + 24..at + 28] == LE32(e.start) && b[at + 28..at + 32] == LE32(e.length);
    LE32Is(b, at + 16, e.kind);
    LE32Is(b, at + 20, e.parent);
    LE32Is(b, at + 24, e.start);
    LE32Is(b, at + 28, e.length);
  }

  /** In every synced state storage holds the magic number and then the entries,
      32 bytes each. */
  lemma ImageBytes(fs: Fs, i: Slot)
    requires Synced(fs)
    ensures fs.storage[..4] == [0x53, 0x46, 0x44, 0x42]
    ensures EntryAt(fs.storage, 4 + 32 * i, fs.table[i])
  {
    MagicBytes(fs);
    EncodedSlot(fs, i);
    EncodedEntry(fs.storage, 4 + 32 * i, fs.table[i]);
  }

  lemma MagicBytes(fs: Fs)
    requires Synced(fs)
    ensures fs.storage[..4] == [0x53, 0x46, 0x44, 0x42]
  {
    assert fs.storage[..4] == fs.storage[..IMAGE_SIZE][..4] == LE32(MAGIC);
    assert LE32(MAGIC) == [0x53, 0x46, 0x44, 0x42];
  }

  lemma EncodedSlot(fs: Fs, i: Slot)
    requires Synced(fs)
    ensures fs.storage[4 + 32 * i..4 + 32 * i + 32] == Encode(fs.table[i])
  {
    EncodeTableAt(fs.table, i);
    assert fs.storage[..IMAGE_SIZE][4..] == EncodeTable(fs.table);
    Slices(fs.storage, IMAGE_SIZE, 4, 32 * i, 32 * i + 32);
  }

  // ----- The bytes of a name -----

  /** strcpy over a name: what lay behind the terminator stays. */
  predicate CopiedOver(before: seq<Byte>, name: Name, after: seq<Byte>) {
    && |before| == |after| == 16 && |name| < 16
    && forall k :: 0 <= k < 16 ==> after[k] == if k < |name| then name[k] else if k == |name| then 0 else before[k]
  }

  lemma CreateBytes(fs: Fs, name: Name, kind: nat)
    requires kind <= DIRECTORY && Create(fs, name, kind).1 == 0
    ensures var i := Vacancy(fs.table, name, fs.cwd);
            CopiedOver(fs.table[i].name, name, Create(fs, name, kind).0.table[i].name)
  {
  }

  lemma RenameBytes(fs: Fs, name: Name, newName: Name)
    requires Rename(fs, name, newName).1 == 0
    ensures var i := Find(fs.table, name, fs.cwd);
            CopiedOver(fs.table[i].name, newName, Rename(fs, name, newName).0.table[i].name)
  {
  }

  /** Deletion clears the first byte and leaves the rest of the entry. */
  lemma DeleteBytes(fs: Fs, name: Name)
    requires Delete(fs, name).1 == 0
    ensures var i := Find(fs.table, name, fs.cwd);
            var before, after := fs.table[i], Delete(fs, name).0.table[i];
            && after.name[0] == 0 && after.name[1..] == before.name[1..]
            && after.(name := before.name) == before
  {
  }

  // ----- Standing still -----

  /** `.` stays, and so does `..` in the root. */
  lemma Dots(fs: Fs)
    ensures Chdir(fs, [46]) == (fs, 0)
    ensures fs.cwd == 0 ==> Chdir(fs, [46, 46]) == (fs, 0)
    ensures fs.cwd != 0 ==> Chdir(fs, [46, 46]) == (fs.(cwd := fs.table[fs.cwd].parent), 0)
  {
  }

  // ----- The first tree -----

  /** A name and the slot of its directory. */
  datatype Place = Place(name: Name, parent: Slot)

  /** The first slots hold directories with these places, and the others are
      free. */
  predicate Directories(table: Table, places: seq<Place>) {
    && |places| <= MAX_FILES
    && (forall i :: 0 <= i < |places| ==>
          && Live(table[i]) && table[i].kind == DIRECTORY
          && CStr(table[i].name) == places[i].name && table[i].parent == places[i].parent)
    && (forall i :: |places| <= i < MAX_FILES ==> !Live(table[i]))
  }

  lemma PlaceIsNew(table: Table, places: seq<Place>, name: Name, parent: Slot)
    requires Directories(table, places) && Place(name, parent) !in places
    ensures Find(table, name, parent) == -1
  {
    forall k | 0 <= k < MAX_FILES ensures !Matches(table[k], name, parent) {
      if k < |places| { assert places[k] != Place(name, parent); }
    }
    FindMeans(table, name, parent);
  }

  lemma FirstFree(table: Table, places: seq<Place>)
    requires Directories(table, places) && |places| < MAX_FILES
    ensures FreeFrom(table, 0) == |places|
  {
    assert !Live(table[|places|]);
  }

  lemma SetPlace(table: Table, places: seq<Place>, e: Entry)
    requires Directories(table, places) && |places| < MAX_FILES
    requires Live(e) && e.kind == DIRECTORY
    ensures Directories(table[|places| := e], places + [Place(CStr(e.name), e.parent)])
  {
  }

  lemma AddPlace(table: Table, places: seq<Place>, name: Name, parent: Slot)
    requires Directories(table, places) && |places| < MAX_FILES
    requires 0 < |name| < NAME_LENGTH && Place(name, parent) !in places
    ensures Vacancy(table, name, parent) == |places|
    ensures Directories(AddDirectory(table, name, parent), places + [Place(name, parent)])
  {
    PlaceIsNew(table, places, name, parent);
    FirstFree(table, places);
    var e := Fresh(table[|places|], name, DIRECTORY, parent);
    NameStart(e.name);
    SetPlace(table, places, e);
  }

  function DefaultPlaces(): seq<Place> {
    [Place(ROOT, 0), Place(SOUL, 0), Place(CORTEX, 0), Place(VAULT, 0), Place(CHROME, 0), Place(DRIFT, 0),
     Place(GHOST, 0), Place(CYPHER, 3)]
  }

  lemma FirstPlaces(n: nat)
    requires n < 8
    ensures DefaultPlaces()[..n + 1] == DefaultPlaces()[..n] + [DefaultPlaces()[n]]
    ensures DefaultPlaces()[n] !in DefaultPlaces()[..n]
  {
  }

  /** The first `n` of these directories have been made. */
  predicate Stage(t: Table, n: nat) { n <= 8 && Directories(t, DefaultPlaces()[..n]) }

  predicate NthPlace(n: nat, name: Name, parent: Slot) {
    0 < n < 8 && DefaultPlaces()[n] == Place(name, parent) && 0 < |name| < NAME_LENGTH
  }

  lemma RootIsFirst()
    ensures Stage(RootOnly(), 1)
  {
    NameStart(RootOnly()[0].name);
  }

  lemma AddNext(t: Table, n: nat, name: Name, parent: Slot) returns (r: Table)
    requires NthPlace(n, name, parent) && Stage(t, n)
    ensures r == AddDirectory(t, name, parent) && Stage(r, n + 1) && Vacancy(t, name, parent) == n
  {
    FirstPlaces(n);
    AddPlace(t, DefaultPlaces()[..n], name, parent);
    r := AddDirectory(t, name, parent);
  }

  lemma NthPlaces()
    ensures NthPlace(1, SOUL, 0) && NthPlace(2, CORTEX, 0) && NthPlace(3, VAULT, 0) && NthPlace(4, CHROME, 0)
    ensures NthPlace(5, DRIFT, 0) && NthPlace(6, GHOST, 0) && NthPlace(7, CYPHER, 3)
  {
  }

  lemma PopulateStages(t0: Table)
    requires Stage(t0, 1)
    ensures Stage(Populate(t0), 8)
  {
    NthPlaces();
    var t1 := AddNext(t0, 1, SOUL, 0);
    var t2 := AddNext(t1, 2, CORTEX, 0);
    var t3 := AddNext(t2, 3, VAULT, 0);
    var t4 := AddNext(t3, 4, CHROME, 0);
    var t5 := AddNext(t4, 5, DRIFT, 0);
    var t6 := AddNext(t5, 6, GHOST, 0);
    var t7 := AddNext(t6, 7, CYPHER, 3);
  }

  const FIRST_NAMES: seq<string> := ["/", "soul", "cortex", "vault", "chrome", "drift", "ghost", "cypher"]

  lemma FirstNameIs(i: nat)
    requires i < 8
    ensures Spells(FIRST_NAMES[i], DefaultPlaces()[i].name)
  {
  }

  /** What slot `i` of the first tree holds. */
  predicate FirstEntry(e: Entry, i: Slot) {
    if i >= 8 then e.name[0] == 0
    else
      && e.name[0] != 0 && e.kind == 1 && e.parent == (if i == 7 then 3 else 0)
      && Spells(FIRST_NAMES[i], CStr(e.name))
  }

  predicate Spells(s: string, b: seq<Byte>) {
    |s| == |b| && forall k :: 0 <= k < |s| ==> s[k] as int == b[k] as int
  }

  lemma StageMeans(t: Table, i: Slot)
    requires Stage(t, 8)
    ensures FirstEntry(t[i], i)
  {
    assert DefaultPlaces()[..8] == DefaultPlaces();
    if i < 8 { FirstNameIs(i); }
  }

  /** A new file system has the root in slot 0, six directories in it, and cypher
      under vault, and nothing else. */
  lemma FirstTree(i: Slot)
    ensures FirstEntry(Run([]).fs.table[i], i)
    ensures Run([]).fs.cwd == 0
  {
    PowerOnHasNoMagic();
    RootIsFirst();
    PopulateStages(RootOnly());
    StageMeans(Populate(RootOnly()), i);
  }
}
