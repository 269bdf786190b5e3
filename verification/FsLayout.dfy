/** What a disk holds when it holds a file system: where the bitmap and the
    directory are, what they say, and when they agree with each other. */
module FsLayout {
  import opened Bytes
  import opened Bitmaps
  import opened SectorDisk
  import opened FileHeaders
  import opened OpenFiles
  import opened Directories

  const FREE_MAP_SECTOR := 0
  const DIRECTORY_SECTOR := 1
  const NUM_DIR_ENTRIES := 10
  const FREE_MAP_FILE_SIZE := NUM_SECTORS / 8
  const DIRECTORY_FILE_SIZE := ENTRY_SIZE * NUM_DIR_ENTRIES
  const NUM_WORDS := 32

  type GoodHeader = h: Header | Good(h) witness Header(0, 0, seq(NUM_DIRECT, _ => 0))

  /** Unused slots of a fresh header hold -1. */
  function NewHeader(size: nat, sectors: seq<Int32>): (h: Header)
    requires size <= MAX_FILE_SIZE && |sectors| == SectorsFor(size)
    ensures h.numBytes == size && h.numSectors == |sectors| && Data(h) == sectors
  {
    Header(size, |sectors|, sectors + seq(NUM_DIRECT - |sectors|, _ => -1))
  }

  /** The two system files, as formatting places them. */
  const MAP_HEADER: GoodHeader := NewHeader(FREE_MAP_FILE_SIZE, [2])
  const DIR_HEADER: GoodHeader := NewHeader(DIRECTORY_FILE_SIZE, [3, 4])

  /** The sectors of the system files: two headers and three data sectors. */
  const SYSTEM_SECTORS: set<int> := {0, 1, 2, 3, 4}

  function WordsOf(d: DiskImage): (ws: seq<Word>)
    ensures |ws| == NUM_WORDS
  {
    DecodeWords(FileBytes(d, MAP_HEADER), NUM_WORDS)
  }

  function TableOf(d: DiskImage): (t: seq<DirEntry>)
    ensures |t| == NUM_DIR_ENTRIES
  {
    DecodeTable(FileBytes(d, DIR_HEADER), NUM_DIR_ENTRIES)
  }

  function HeaderAt(d: DiskImage, s: int): Header
    requires 0 <= s < NUM_SECTORS
  {
    DecodeHeader(d[s])
  }

  function SaveWords(d: DiskImage, ws: seq<Word>): DiskImage {
    WriteCall(d, MAP_HEADER, 0, EncodeWords(ws))
  }

  function SaveTable(d: DiskImage, t: seq<DirEntry>): DiskImage {
    WriteCall(d, DIR_HEADER, 0, EncodeTable(t))
  }

  lemma WholeFileWrite(d: DiskImage, h: GoodHeader, data: seq<Byte>)
    requires |data| == h.numBytes
    ensures FileBytes(WriteCall(d, h, 0, data), h) == data
    ensures forall s | 0 <= s < NUM_SECTORS && s !in Data(h) :: WriteCall(d, h, 0, data)[s] == d[s]
  {
    CallReplaces(d, h, 0, data);
  }

  lemma SystemData()
    ensures Data(MAP_HEADER) == [2] && Data(DIR_HEADER) == [3, 4]
    ensures MAP_HEADER.numBytes == FREE_MAP_FILE_SIZE && MAP_HEADER.numSectors == 1
    ensures DIR_HEADER.numBytes == DIRECTORY_FILE_SIZE && DIR_HEADER.numSectors == 2
  {
  }

  lemma SavedWords(d: DiskImage, ws: seq<Word>)
    requires |ws| == NUM_WORDS
    ensures WordsOf(SaveWords(d, ws)) == ws
    ensures forall s | 0 <= s < NUM_SECTORS && s != 2 :: SaveWords(d, ws)[s] == d[s]
    ensures TableOf(SaveWords(d, ws)) == TableOf(d)
  {
    var d' := SaveWords(d, ws);
    SystemData();
    WholeFileWrite(d, MAP_HEADER, EncodeWords(ws));
    assert WordsOf(d') == ws by { WordsRoundTrip(ws); }
    SameTable(d, d');
  }

  lemma SavedTable(d: DiskImage, t: seq<DirEntry>)
    requires |t| == NUM_DIR_ENTRIES
    ensures TableOf(SaveTable(d, t)) == t
    ensures forall s | 0 <= s < NUM_SECTORS && s != 3 && s != 4 :: SaveTable(d, t)[s] == d[s]
    ensures WordsOf(SaveTable(d, t)) == WordsOf(d)
  {
    var d' := SaveTable(d, t);
    SystemData();
    WholeFileWrite(d, DIR_HEADER, EncodeTable(t));
    assert TableOf(d') == t by { TableRoundTrip(t); }
    SameWords(d, d');
  }

  lemma SameTable(d: DiskImage, d': DiskImage)
    requires d'[3] == d[3] && d'[4] == d[4]
    ensures TableOf(d') == TableOf(d)
  {
    SystemData();
    SameSectorsSameBytes(d, d', DIR_HEADER);
  }

  lemma SameWords(d: DiskImage, d': DiskImage)
    requires d'[2] == d[2]
    ensures WordsOf(d') == WordsOf(d)
  {
    SystemData();
    SameSectorsSameBytes(d, d', MAP_HEADER);
  }

  // ---------- Which sectors belong to which file ----------

  /** An entry names a file: its header is good, and header and data lie
      outside the system sectors and apart from each other. */
  ghost predicate Live(d: DiskImage, e: DirEntry) {
    && 0 <= e.sector < NUM_SECTORS
    && Good(HeaderAt(d, e.sector))
    && e.sector !in Data(HeaderAt(d, e.sector))
    && Extent(d, e) !! SYSTEM_SECTORS
  }

  /** The header sector and the data sectors of the file of an entry. */
  ghost function Extent(d: DiskImage, e: DirEntry): set<int>
    requires 0 <= e.sector < NUM_SECTORS && Good(HeaderAt(d, e.sector))
  {
    {e.sector} + Elements(Data(HeaderAt(d, e.sector)))
  }

  ghost predicate AllLive(d: DiskImage, t: seq<DirEntry>) {
    forall i | 0 <= i < |t| && t[i].inUse :: Live(d, t[i])
  }

  ghost predicate Apart(d: DiskImage, t: seq<DirEntry>)
    requires AllLive(d, t)
  {
    forall i, j | 0 <= i < j < |t| && t[i].inUse && t[j].inUse ::
      Extent(d, t[i]) !! Extent(d, t[j])
  }

  predicate UniqueNames(t: seq<DirEntry>) {
    forall i, j | 0 <= i < j < |t| && t[i].inUse && t[j].inUse ::
      FieldKey(t[i].name) != FieldKey(t[j].name)
  }

  /** All sectors in use: the system's, and those of the first `k` entries. */
  ghost function Used(d: DiskImage, t: seq<DirEntry>, k: nat): set<int>
    requires AllLive(d, t) && k <= |t|
  {
    if k == 0 then SYSTEM_SECTORS
    else Used(d, t, k - 1) + if t[k - 1].inUse then Extent(d, t[k - 1]) else {}
  }

  /** Directory and bitmap agree: the marked sectors are exactly those in use,
      no sector belongs to two files, and names are unique. */
  ghost predicate Consistent(d: DiskImage, t: seq<DirEntry>, marked: set<int>) {
    && AllLive(d, t)
    && Apart(d, t)
    && UniqueNames(t)
    && marked == Used(d, t, |t|)
  }

  /** The disk holds a consistent file system. */
  ghost predicate WellFormed(d: DiskImage) {
    && d[FREE_MAP_SECTOR] == EncodeHeader(MAP_HEADER)
    && d[DIRECTORY_SECTOR] == EncodeHeader(DIR_HEADER)
    && Consistent(d, TableOf(d), Marked(WordsOf(d), NUM_SECTORS))
  }

  lemma {:induction false} UsedMember(d: DiskImage, t: seq<DirEntry>, k: nat, x: int)
    requires AllLive(d, t) && k <= |t|
    ensures x in Used(d, t, k) <==>
            x in SYSTEM_SECTORS || exists i :: 0 <= i < k && t[i].inUse && x in Extent(d, t[i])
  {
    if k > 0 { UsedMember(d, t, k - 1, x); }
  }

  /** Two tables that differ in one slot, free in the first and holding a file
      in the second: the sectors in use differ by that file's. */
  lemma {:induction false} UsedWithSlot(d: DiskImage, t: seq<DirEntry>, d': DiskImage, t': seq<DirEntry>, j: nat,
                                        k: nat)
    requires |t| == |t'| && j < |t| && k <= |t|
    requires AllLive(d, t) && AllLive(d', t')
    requires !t[j].inUse && t'[j].inUse
    requires SameOthers(d, t, d', t', j)
    ensures Used(d', t', k) == Used(d, t, k) + if j < k then Extent(d', t'[j]) else {}
  {
    if k > 0 {
      UsedWithSlot(d, t, d', t', j, k - 1);
      if k - 1 != j && t[k - 1].inUse {
        assert Extent(d', t'[k - 1]) == Extent(d, t[k - 1]);
      }
    }
  }

  /** Entries other than `j` are the same and have the same header on disk. */
  ghost predicate SameOthers(d: DiskImage, t: seq<DirEntry>, d': DiskImage, t': seq<DirEntry>, j: nat)
    requires |t| == |t'| && AllLive(d, t)
  {
    forall i | 0 <= i < |t| && i != j ::
      && t'[i].inUse == t[i].inUse
      && (t[i].inUse ==> t'[i] == t[i] && d'[t[i].sector] == d[t[i].sector])
  }

  // ---------- Files as a map ----------

  /** The files of a disk: from nine-character names to bytes. */
  ghost function Files(d: DiskImage): map<CString, seq<Byte>>
    requires AllLive(d, TableOf(d))
  {
    FileMap(d, TableOf(d), NUM_DIR_ENTRIES)
  }

  /** The files of the first `k` entries. */
  ghost function FileMap(d: DiskImage, t: seq<DirEntry>, k: nat): map<CString, seq<Byte>>
    requires AllLive(d, t) && k <= |t|
  {
    if k == 0 then map[]
    else if !t[k - 1].inUse then FileMap(d, t, k - 1)
    else FileMap(d, t, k - 1)[FieldKey(t[k - 1].name) := EntryBytes(d, t[k - 1])]
  }

  lemma FileMapNext(d: DiskImage, t: seq<DirEntry>, i: nat)
    requires AllLive(d, t) && i < |t|
    ensures FileMap(d, t, i + 1)
         == if t[i].inUse then FileMap(d, t, i)[FieldKey(t[i].name) := EntryBytes(d, t[i])] else FileMap(d, t, i)
  {
  }

  ghost function EntryBytes(d: DiskImage, e: DirEntry): seq<Byte>
    requires Live(d, e)
  {
    FileBytes(d, HeaderAt(d, e.sector))
  }

  lemma {:induction false} FileMapAt(d: DiskImage, t: seq<DirEntry>, k: nat, i: nat)
    requires AllLive(d, t) && UniqueNames(t) && i < k <= |t| && t[i].inUse
    ensures FieldKey(t[i].name) in FileMap(d, t, k)
    ensures FileMap(d, t, k)[FieldKey(t[i].name)] == EntryBytes(d, t[i])
  {
    if i < k - 1 { FileMapAt(d, t, k - 1, i); }
  }

  lemma {:induction false} FileMapAbsent(d: DiskImage, t: seq<DirEntry>, k: nat, key: CString)
    requires AllLive(d, t) && k <= |t|
    requires forall i | 0 <= i < k :: !Matches(t[i], key)
    ensures key !in FileMap(d, t, k)
  {
    if k > 0 { FileMapAbsent(d, t, k - 1, key); }
  }

  /** The map is what the directory lookup finds. */
  lemma FilesLookup(d: DiskImage, key: CString)
    requires AllLive(d, TableOf(d)) && UniqueNames(TableOf(d))
    ensures var i := IndexOf(TableOf(d), key);
            if i < 0 then key !in Files(d)
            else key in Files(d) && Files(d)[key] == EntryBytes(d, TableOf(d)[i])
  {
    var t := TableOf(d);
    if IndexOf(t, key) < 0 {
      FileMapAbsent(d, t, NUM_DIR_ENTRIES, key);
    } else {
      FileMapAt(d, t, NUM_DIR_ENTRIES, IndexOf(t, key));
    }
  }
}
