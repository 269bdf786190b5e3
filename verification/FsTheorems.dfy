/** What each file-system operation does to a consistent disk. */
module FsTheorems {
  import opened Bytes
  import opened Bitmaps
  import opened SectorDisk
  import opened FileHeaders
  import opened Sequences
  import opened OpenFiles
  import opened Directories
  import opened FsLayout
  import opened FsOps

  // ---------- Sectors are conserved ----------

  /** Sectors of the files of the first `k` entries: one for the header of
      each, and those its bytes need. */
  ghost function FileSectors(d: DiskImage, t: seq<DirEntry>, k: nat): nat
    requires AllLive(d, t) && k <= |t|
  {
    if k == 0 then 0
    else FileSectors(d, t, k - 1)
         + if t[k - 1].inUse then 1 + SectorsFor(|EntryBytes(d, t[k - 1])|) else 0
  }

  lemma {:induction false} ElementsSize(s: seq<int>)
    requires Distinct(s)
    ensures |Elements(s)| == |s|
  {
    if s != [] {
      var front, x := s[..|s| - 1], s[|s| - 1];
      ElementsSize(front);
      assert s == front + [x] && x !in front;
      assert Elements(s) == Elements(front) + {x};
    }
  }

  lemma ExtentSize(d: DiskImage, e: DirEntry)
    requires Live(d, e)
    ensures |Extent(d, e)| == 1 + SectorsFor(|EntryBytes(d, e)|)
  {
    ElementsSize(Data(HeaderAt(d, e.sector)));
  }

  lemma NextApart(d: DiskImage, t: seq<DirEntry>, k: nat)
    requires AllLive(d, t) && Apart(d, t) && k < |t| && t[k].inUse
    ensures Used(d, t, k) !! Extent(d, t[k])
  {
    var e := Extent(d, t[k]);
    forall x | x in e
      ensures x !in Used(d, t, k)
    { UsedMember(d, t, k, x); }
  }

  lemma UsedGrows(d: DiskImage, t: seq<DirEntry>, k: nat)
    requires AllLive(d, t) && Apart(d, t) && k < |t| && t[k].inUse
    ensures |Used(d, t, k + 1)| == |Used(d, t, k)| + |Extent(d, t[k])|
  {
    NextApart(d, t, k);
    DisjointSize(Used(d, t, k), Extent(d, t[k]), Used(d, t, k + 1));
  }

  lemma FilesGrow(d: DiskImage, t: seq<DirEntry>, k: nat)
    requires AllLive(d, t) && k < |t|
    ensures FileSectors(d, t, k + 1) == FileSectors(d, t, k) + if t[k].inUse then |Extent(d, t[k])| else 0
  {
    if t[k].inUse { ExtentSize(d, t[k]); }
  }

  lemma UsedNext(d: DiskImage, t: seq<DirEntry>, k: nat)
    requires AllLive(d, t) && Apart(d, t) && k < |t|
    ensures |Used(d, t, k + 1)| == |Used(d, t, k)| + if t[k].inUse then |Extent(d, t[k])| else 0
  {
    if t[k].inUse {
      UsedGrows(d, t, k);
    } else {
      assert Used(d, t, k + 1) == Used(d, t, k);
    }
  }

  lemma UsedNone(d: DiskImage, t: seq<DirEntry>)
    requires AllLive(d, t)
    ensures |Used(d, t, 0)| == 5 && FileSectors(d, t, 0) == 0
  {
    SystemSize();
  }

  lemma {:induction false} UsedSize(d: DiskImage, t: seq<DirEntry>, k: nat)
    requires AllLive(d, t) && Apart(d, t) && k <= |t|
    ensures |Used(d, t, k)| == 5 + FileSectors(d, t, k)
  {
    if k == 0 {
      UsedNone(d, t);
    } else {
      var i := k - 1;
      UsedSize(d, t, i);
      BothGrow(d, t, i);
    }
  }

  lemma BothGrow(d: DiskImage, t: seq<DirEntry>, i: nat)
    requires AllLive(d, t) && Apart(d, t) && i < |t|
    ensures |Used(d, t, i + 1)| - FileSectors(d, t, i + 1) == |Used(d, t, i)| - FileSectors(d, t, i)
  {
    UsedNext(d, t, i);
    FilesGrow(d, t, i);
  }

  lemma SystemSize()
    ensures |SYSTEM_SECTORS| == 5
  {
  }

  lemma DisjointSize(a: set<int>, b: set<int>, union: set<int>)
    requires a !! b && union == a + b
    ensures |union| == |a| + |b|
  {
  }

  /** Free sectors, the five of the system and those of the files add up to
      the whole disk. */
  lemma SectorsConserved(d: DiskImage)
    requires WellFormed(d)
    ensures CountClear(WordsOf(d), NUM_SECTORS) + 5
            + FileSectors(d, TableOf(d), NUM_DIR_ENTRIES) == NUM_SECTORS
  {
    CountClearIsComplement(WordsOf(d), NUM_SECTORS);
    var t := TableOf(d);
    UsedSize(d, t, NUM_DIR_ENTRIES);
  }

  // ---------- The number of files ----------

  function SlotsInUse(t: seq<DirEntry>, k: nat): nat
    requires k <= |t|
  {
    if k == 0 then 0 else SlotsInUse(t, k - 1) + if t[k - 1].inUse then 1 else 0
  }

  lemma {:induction false} FileMapSize(d: DiskImage, t: seq<DirEntry>, k: nat)
    requires AllLive(d, t) && UniqueNames(t) && k <= |t|
    ensures |FileMap(d, t, k)| == SlotsInUse(t, k)
  {
    if k > 0 {
      FileMapSize(d, t, k - 1);
      if t[k - 1].inUse {
        var key := FieldKey(t[k - 1].name);
        forall i | 0 <= i < k - 1
          ensures !Matches(t[i], key)
        {}
        FileMapAbsent(d, t, k - 1, key);
        OneMoreKey(FileMap(d, t, k - 1), key, EntryBytes(d, t[k - 1]));
      }
    }
  }

  lemma OneMoreKey<K, V>(m: map<K, V>, key: K, v: V)
    requires key !in m
    ensures |m[key := v]| == |m| + 1
  {
    assert m[key := v].Keys == m.Keys + {key};
  }

  lemma {:induction false} SlotsBound(t: seq<DirEntry>, k: nat)
    requires k <= |t|
    ensures SlotsInUse(t, k) <= k
    ensures SlotsInUse(t, k) == k <==> forall i | 0 <= i < k :: t[i].inUse
  {
    if k > 0 { SlotsBound(t, k - 1); }
  }

  /** A slot is free exactly while there are fewer than ten files. */
  lemma FreeSlot(d: DiskImage)
    requires WellFormed(d)
    ensures FreeIndex(TableOf(d)) >= 0 <==> |Files(d)| < NUM_DIR_ENTRIES
  {
    var t := TableOf(d);
    FileMapSize(d, t, NUM_DIR_ENTRIES);
    SlotsBound(t, NUM_DIR_ENTRIES);
    if FreeIndex(t) >= 0 { assert !t[FreeIndex(t)].inUse; }
  }

  lemma {:induction false} FileSectorsBound(d: DiskImage, t: seq<DirEntry>, k: nat)
    requires AllLive(d, t) && k <= |t|
    ensures FileSectors(d, t, k) <= 31 * SlotsInUse(t, k)
  {
    if k > 0 { FileSectorsBound(d, t, k - 1); }
  }

  /** Ten files of at most thirty data sectors never fill the disk. */
  lemma SpaceNeverShort(d: DiskImage, size: nat)
    requires WellFormed(d) && size <= MAX_FILE_SIZE && FreeIndex(TableOf(d)) >= 0
    ensures 1 + SectorsFor(size) <= CountClear(WordsOf(d), NUM_SECTORS)
  {
    SectorsConserved(d);
    FileSectorsBound(d, TableOf(d), NUM_DIR_ENTRIES);
    SlotsBound(TableOf(d), NUM_DIR_ENTRIES);
  }

  // ---------- Create ----------

  lemma {:induction false} NoneClear(ws: seq<Word>, n: nat)
    requires Covers(ws, n) && CountClear(ws, n) == 0
    ensures forall i | 0 <= i < n :: Test(ws, i)
  {
    if n > 0 { NoneClear(ws, n - 1); }
  }

  /** One sector can be taken and then `k` more exactly when `k + 1` are free. */
  lemma RoomForHeaderAndData(ws: seq<Word>, k: nat)
    requires |ws| == NUM_WORDS
    ensures (var s := FirstClear(ws, NUM_SECTORS); s >= 0 && k <= CountClear(Mark(ws, s), NUM_SECTORS))
            <==> 1 + k <= CountClear(ws, NUM_SECTORS)
  {
    if CountClear(ws, NUM_SECTORS) == 0 {
      NoneClear(ws, NUM_SECTORS);
    } else {
      ClearBitLeft(ws, NUM_SECTORS);
    }
  }

  /** `Create` succeeds exactly when the name is absent, a directory slot is
      free and there are sectors for the header and the data; when it fails no
      byte of the disk changes. */
  lemma CreateSucceedsIff(d: DiskImage, name: CString, size: nat)
    requires WellFormed(d) && size <= MAX_FILE_SIZE
    ensures CreateImage(d, name, size).ok <==>
            && Key(name) !in Files(d)
            && FreeIndex(TableOf(d)) >= 0
            && 1 + SectorsFor(size) <= CountClear(WordsOf(d), NUM_SECTORS)
    ensures !CreateImage(d, name, size).ok ==> CreateImage(d, name, size).image == d
  {
    FilesLookup(d, Key(name));
    RoomForHeaderAndData(WordsOf(d), SectorsFor(size));
  }

  /** On every consistent disk the first two conditions are enough. */
  lemma CreateSucceedsOnFiles(d: DiskImage, name: CString, size: nat)
    requires WellFormed(d) && size <= MAX_FILE_SIZE
    ensures CreateImage(d, name, size).ok <==> Key(name) !in Files(d) && |Files(d)| < NUM_DIR_ENTRIES
  {
    CreateSucceedsIff(d, name, size);
    FreeSlot(d);
    if FreeIndex(TableOf(d)) >= 0 { SpaceNeverShort(d, size); }
  }

  /** Adding a file with fresh sectors, on a directory and a bitmap. */
  lemma CreateConsistent(d: DiskImage, t: seq<DirEntry>, marked: set<int>, name: CString, size: nat,
                         s: Int32, sectors: seq<Int32>, d': DiskImage)
    requires Consistent(d, t, marked) && size <= MAX_FILE_SIZE
    requires FreeIndex(t) >= 0 && IndexOf(t, Key(name)) < 0
    requires |sectors| == SectorsFor(size) && Distinct(sectors) && Within(sectors, NUM_SECTORS)
    requires 0 <= s < NUM_SECTORS && s !in marked && s !in sectors && Elements(sectors) !! marked
    requires HeaderAt(d', s) == NewHeader(size, sectors)
    requires forall x | 0 <= x < NUM_SECTORS && x != 2 && x != 3 && x != 4 && x != s :: d'[x] == d[x]
    ensures Consistent(d', Added(t, name, s), marked + {s} + Elements(sectors))
    ensures var e := Added(t, name, s)[FreeIndex(t)];
            && |EntryBytes(d', e)| == size
            && FileMap(d', Added(t, name, s), |t|) == FileMap(d, t, |t|)[Key(name) := EntryBytes(d', e)]
  {
    var t', j := Added(t, name, s), FreeIndex(t);
    CreateFills(d, t, marked, name, size, s, sectors, d');
    StoredNameIsKey(t[j].name, name);
    FilledConsistent(d, t, marked, d', t', j);
    assert marked + Extent(d', t'[j]) == marked + {s} + Elements(sectors);
    FilledFiles(d, t, d', t', j, |t|);
  }

  /** A successful `Create` adds one file of the given length and keeps the
      disk consistent. */
  lemma CreateEffect(d: DiskImage, name: CString, size: nat)
    requires WellFormed(d) && size <= MAX_FILE_SIZE && CreateImage(d, name, size).ok
    ensures var d' := CreateImage(d, name, size).image;
            && WellFormed(d')
            && Key(name) in Files(d') && |Files(d')[Key(name)]| == size
            && Files(d') == Files(d)[Key(name) := Files(d')[Key(name)]]
  {
    CommitEffect(d, TableOf(d), WordsOf(d), name, size);
  }

  lemma CommitEffect(d: DiskImage, t: seq<DirEntry>, ws: seq<Word>, name: CString, size: nat)
    requires |t| == NUM_DIR_ENTRIES && |ws| == NUM_WORDS && size <= MAX_FILE_SIZE
    requires d[FREE_MAP_SECTOR] == EncodeHeader(MAP_HEADER) && d[DIRECTORY_SECTOR] == EncodeHeader(DIR_HEADER)
    requires Consistent(d, t, Marked(ws, NUM_SECTORS))
    requires IndexOf(t, Key(name)) < 0 && FreeIndex(t) >= 0 && FirstClear(ws, NUM_SECTORS) >= 0
    requires SectorsFor(size) <= CountClear(Mark(ws, FirstClear(ws, NUM_SECTORS)), NUM_SECTORS)
    ensures var s := FirstClear(ws, NUM_SECTORS);
            var a := Take(Mark(ws, s), NUM_SECTORS, SectorsFor(size));
            var d' := Commit(d, s, NewHeader(size, a.sectors), Added(t, name, s), a.words);
            && WellFormed(d')
            && Key(name) in Files(d') && |Files(d')[Key(name)]| == size
            && Files(d') == FileMap(d, t, |t|)[Key(name) := Files(d')[Key(name)]]
  {
    var s := FirstClear(ws, NUM_SECTORS);
    var a := Take(Mark(ws, s), NUM_SECTORS, SectorsFor(size));
    var h, t' := NewHeader(size, a.sectors), Added(t, name, s);
    CreateTakesFree(ws, size);
    assert s !in SYSTEM_SECTORS by { SystemUsed(d, t, |t|); }
    SavedBoth(d[s := EncodeHeader(h)], t', a.words);
    Committed(d, s, h, t', a.words);
    CreateConsistent(d, t, Marked(ws, NUM_SECTORS), name, size, s, a.sectors, Commit(d, s, h, t', a.words));
  }

  // ---------- Remove ----------

  lemma RemovedSaved(d: DiskImage, t: seq<DirEntry>, ws: seq<Word>)
    requires |t| == NUM_DIR_ENTRIES && |ws| == NUM_WORDS
    ensures var d' := Retract(d, t, ws);
            && TableOf(d') == t && WordsOf(d') == ws
            && forall x | 0 <= x < NUM_SECTORS && x != 2 && x != 3 && x != 4 :: d'[x] == d[x]
  {
    SavedWords(d, ws);
    SavedTable(SaveWords(d, ws), t);
  }

  /** The bitmap loses exactly the sectors of the removed file. */
  lemma RemoveUnmarks(ws: seq<Word>, d: DiskImage, e: DirEntry)
    requires |ws| == NUM_WORDS && Live(d, e)
    ensures Marked(Freed(d, ws, e.sector), NUM_SECTORS) == Marked(ws, NUM_SECTORS) - Extent(d, e)
  {
    var secs := Data(HeaderAt(d, e.sector));
    ClearAllUnmarks(ws, NUM_SECTORS, secs);
    MarkedClear(ClearAll(ws, secs), NUM_SECTORS, e.sector);
  }

  lemma RemoveConsistent(d: DiskImage, t: seq<DirEntry>, marked: set<int>, key: CString, d': DiskImage)
    requires Consistent(d, t, marked) && IndexOf(t, key) >= 0
    requires forall x | 0 <= x < NUM_SECTORS && x != 2 && x != 3 && x != 4 :: d'[x] == d[x]
    ensures Consistent(d', Removed(t, key), marked - Extent(d, t[IndexOf(t, key)]))
    ensures FileMap(d', Removed(t, key), |t|) == FileMap(d, t, |t|) - {key}
  {
    EmptiedConsistent(d, t, marked, d', Removed(t, key), IndexOf(t, key));
    EmptiedFiles(d, t, d', Removed(t, key), IndexOf(t, key));
  }

  lemma LiveEntries(d: DiskImage)
    requires WellFormed(d)
    ensures AllLiveIn(d)
  {
    assert AllLive(d, TableOf(d));
  }

  /** `Remove` succeeds exactly when the file exists; otherwise no byte of the
      disk changes. */
  lemma RemoveSucceedsIff(d: DiskImage, name: CString)
    requires WellFormed(d)
    ensures AllLiveIn(d)
    ensures RemoveImage(d, name).ok <==> Key(name) in Files(d)
    ensures !RemoveImage(d, name).ok ==> RemoveImage(d, name).image == d
  {
    LiveEntries(d);
    FilesLookup(d, Key(name));
  }

  /** A successful `Remove` deletes the file and nothing else, and keeps the
      disk consistent. */
  lemma RemoveEffect(d: DiskImage, name: CString)
    requires WellFormed(d) && AllLiveIn(d) && RemoveImage(d, name).ok
    ensures WellFormed(RemoveImage(d, name).image)
    ensures Files(RemoveImage(d, name).image) == Files(d) - {Key(name)}
  {
    var t, ws := TableOf(d), WordsOf(d);
    RetractEffect(d, t, ws, Key(name));
  }

  lemma RetractEffect(d: DiskImage, t: seq<DirEntry>, ws: seq<Word>, key: CString)
    requires |t| == NUM_DIR_ENTRIES && |ws| == NUM_WORDS
    requires d[FREE_MAP_SECTOR] == EncodeHeader(MAP_HEADER) && d[DIRECTORY_SECTOR] == EncodeHeader(DIR_HEADER)
    requires Consistent(d, t, Marked(ws, NUM_SECTORS)) && IndexOf(t, key) >= 0
    ensures var d' := Retract(d, Removed(t, key), Freed(d, ws, t[IndexOf(t, key)].sector));
            WellFormed(d') && Files(d') == FileMap(d, t, |t|) - {key}
  {
    var e := t[IndexOf(t, key)];
    var ws' := Freed(d, ws, e.sector);
    RemovedSaved(d, Removed(t, key), ws');
    RemoveUnmarks(ws, d, e);
    RemoveConsistent(d, t, Marked(ws, NUM_SECTORS), key, Retract(d, Removed(t, key), ws'));
  }

  // ---------- Create, then Remove ----------

  /** The header sector a lookup finds, or -1. */
  function Locate(t: seq<DirEntry>, key: CString): int {
    if IndexOf(t, key) < 0 then -1 else t[IndexOf(t, key)].sector
  }

  lemma AddedThenRemoved(t: seq<DirEntry>, name: CString, s: Int32)
    requires UniqueNames(t) && FreeIndex(t) >= 0 && IndexOf(t, Key(name)) < 0
    ensures IndexOf(Added(t, name, s), Key(name)) == FreeIndex(t)
    ensures Added(t, name, s)[FreeIndex(t)].sector == s
    ensures forall key :: Locate(Removed(Added(t, name, s), Key(name)), key) == Locate(t, key)
  {
    var j, t' := FreeIndex(t), Added(t, name, s);
    StoredNameIsKey(t[j].name, name);
    assert Matches(t'[j], Key(name));
    assert forall i | 0 <= i < |t| && i != j :: t'[i] == t[i] && !Matches(t[i], Key(name));
    var t'' := Removed(t', Key(name));
    forall key: CString
      ensures IndexOf(t'', key) == IndexOf(t, key)
    {
      assert forall i | 0 <= i < |t| :: Matches(t''[i], key) == Matches(t[i], key);
    }
  }

  lemma CreatedParts(d: DiskImage, name: CString, size: nat)
    requires WellFormed(d) && size <= MAX_FILE_SIZE && CreateImage(d, name, size).ok
    ensures var d', s := CreateImage(d, name, size).image, FirstClear(WordsOf(d), NUM_SECTORS);
            var a := Take(Mark(WordsOf(d), s), NUM_SECTORS, SectorsFor(size));
            && TableOf(d') == Added(TableOf(d), name, s)
            && WordsOf(d') == a.words
            && HeaderAt(d', s) == NewHeader(size, a.sectors)
  {
    var s := FirstClear(WordsOf(d), NUM_SECTORS);
    var a := Take(Mark(WordsOf(d), s), NUM_SECTORS, SectorsFor(size));
    assert s !in SYSTEM_SECTORS by { SystemUsed(d, TableOf(d), NUM_DIR_ENTRIES); }
    CommittedParts(d, s, NewHeader(size, a.sectors), Added(TableOf(d), name, s), a.words);
  }

  lemma CommittedParts(d: DiskImage, s: int, h: Header, t: seq<DirEntry>, ws: seq<Word>)
    requires 0 <= s < NUM_SECTORS && s !in SYSTEM_SECTORS
    requires |t| == NUM_DIR_ENTRIES && |ws| == NUM_WORDS
    ensures var d' := Commit(d, s, h, t, ws); TableOf(d') == t && WordsOf(d') == ws && HeaderAt(d', s) == h
  {
    SavedBoth(d[s := EncodeHeader(h)], t, ws);
    Committed(d, s, h, t, ws);
  }

  /** Taking sectors and giving them back restores every word. */
  lemma TakenThenFreed(ws: seq<Word>, size: nat)
    requires |ws| == NUM_WORDS && FirstClear(ws, NUM_SECTORS) >= 0
    requires SectorsFor(size) <= CountClear(Mark(ws, FirstClear(ws, NUM_SECTORS)), NUM_SECTORS)
    ensures var s := FirstClear(ws, NUM_SECTORS);
            var a := Take(Mark(ws, s), NUM_SECTORS, SectorsFor(size));
            Within(a.sectors, NUM_SECTORS) && Clear(ClearAll(a.words, a.sectors), s) == ws
  {
    var s := FirstClear(ws, NUM_SECTORS);
    var a := Take(Mark(ws, s), NUM_SECTORS, SectorsFor(size));
    CreateTakesFree(ws, size);
    FreedRestores(ws, s, a.sectors, a.words);
  }

  lemma FreedRestores(ws: seq<Word>, s: int, secs: seq<Int32>, ws': seq<Word>)
    requires |ws| == |ws'| == NUM_WORDS && 0 <= s < NUM_SECTORS && Within(secs, NUM_SECTORS)
    requires s !in Marked(ws, NUM_SECTORS) && Elements(secs) !! Marked(ws, NUM_SECTORS)
    requires Marked(ws', NUM_SECTORS) == Marked(ws, NUM_SECTORS) + {s} + Elements(secs)
    ensures Clear(ClearAll(ws', secs), s) == ws
  {
    var r := Clear(ClearAll(ws', secs), s);
    assert Marked(r, NUM_SECTORS) == Marked(ws, NUM_SECTORS) by {
      ClearAllUnmarks(ws', NUM_SECTORS, secs);
      MarkedClear(ClearAll(ws', secs), NUM_SECTORS, s);
      SetRestored(Marked(ws, NUM_SECTORS), s, Elements(secs));
    }
    MarkedDetermines(r, ws);
  }

  lemma SetRestored(m: set<int>, s: int, e: set<int>)
    requires s !in m && e !! m
    ensures m + {s} + e - e - {s} == m
  {
  }

  lemma RemovedParts(d: DiskImage, name: CString)
    requires AllLiveIn(d) && RemoveImage(d, name).ok
    ensures var d', i := RemoveImage(d, name).image, IndexOf(TableOf(d), Key(name));
            && TableOf(d') == Removed(TableOf(d), Key(name))
            && WordsOf(d') == Freed(d, WordsOf(d), TableOf(d)[i].sector)
  {
    var i := IndexOf(TableOf(d), Key(name));
    RemovedSaved(d, Removed(TableOf(d), Key(name)), Freed(d, WordsOf(d), TableOf(d)[i].sector));
  }

  /** Removing a file just created succeeds and restores the files. */
  lemma CreateThenRemove(d: DiskImage, name: CString, size: nat)
    requires WellFormed(d) && size <= MAX_FILE_SIZE && CreateImage(d, name, size).ok
    ensures var d1 := CreateImage(d, name, size).image;
            && WellFormed(d1) && AllLiveIn(d1) && RemoveImage(d1, name).ok
            && WellFormed(RemoveImage(d1, name).image)
            && Files(RemoveImage(d1, name).image) == Files(d)
  {
    CreateSucceedsIff(d, name, size);
    CreateEffect(d, name, size);
    RemoveUndoes(d, CreateImage(d, name, size).image, name);
  }

  lemma RemoveUndoes(d: DiskImage, d1: DiskImage, name: CString)
    requires WellFormed(d) && WellFormed(d1)
    requires Key(name) !in Files(d) && Key(name) in Files(d1)
    requires Files(d1) == Files(d)[Key(name) := Files(d1)[Key(name)]]
    ensures AllLiveIn(d1) && RemoveImage(d1, name).ok
    ensures WellFormed(RemoveImage(d1, name).image) && Files(RemoveImage(d1, name).image) == Files(d)
  {
    RemoveSucceedsIff(d1, name);
    RemoveEffect(d1, name);
    MapRestored(Files(d), Files(d1), Key(name));
  }

  lemma MapRestored<K, V>(m: map<K, V>, m1: map<K, V>, k: K)
    requires k !in m && k in m1 && m1 == m[k := m1[k]]
    ensures m1 - {k} == m
  {
  }

  /** It also restores the bitmap bit for bit, and what every directory lookup
      finds. */
  lemma CreateThenRemoveBits(d: DiskImage, name: CString, size: nat)
    requires WellFormed(d) && size <= MAX_FILE_SIZE && CreateImage(d, name, size).ok
    requires var d1 := CreateImage(d, name, size).image; AllLiveIn(d1) && RemoveImage(d1, name).ok
    ensures var d2 := RemoveImage(CreateImage(d, name, size).image, name).image;
            && WordsOf(d2) == WordsOf(d)
            && forall key :: Locate(TableOf(d2), key) == Locate(TableOf(d), key)
  {
    CreatedParts(d, name, size);
    AddedThenRemoved(TableOf(d), name, FirstClear(WordsOf(d), NUM_SECTORS));
    RemovedParts(CreateImage(d, name, size).image, name);
    TakenThenFreed(WordsOf(d), size);
  }

  // ---------- Formatting ----------

  lemma SystemWordsMarked()
    ensures Marked(SystemWords(), NUM_SECTORS) == SYSTEM_SECTORS
  {
    var w0 := seq(NUM_WORDS, _ => 0);
    ZeroWordsUnmarked(w0, NUM_SECTORS);
    MarkedMark(w0, NUM_SECTORS, 0);
    MarkedMark(Mark(w0, 0), NUM_SECTORS, 1);
    MarkedMark(Mark(Mark(w0, 0), 1), NUM_SECTORS, 2);
    MarkedMark(Mark(Mark(Mark(w0, 0), 1), 2), NUM_SECTORS, 3);
    MarkedMark(Mark(Mark(Mark(Mark(w0, 0), 1), 2), 3), NUM_SECTORS, 4);
  }

  lemma {:induction false} NoFiles(d: DiskImage, t: seq<DirEntry>, k: nat)
    requires k <= |t| && forall i | 0 <= i < |t| :: !t[i].inUse
    ensures Used(d, t, k) == SYSTEM_SECTORS && FileMap(d, t, k) == map[]
  {
    if k > 0 { NoFiles(d, t, k - 1); }
  }

  /** Formatting any disk gives a consistent file system with no files. */
  lemma FormatEffect(d: DiskImage)
    ensures WellFormed(FormatImage(d)) && Files(FormatImage(d)) == map[]
  {
    var headers := d[FREE_MAP_SECTOR := EncodeHeader(MAP_HEADER)]
                    [DIRECTORY_SECTOR := EncodeHeader(DIR_HEADER)];
    RemovedSaved(headers, EmptyTable(), SystemWords());
    SystemWordsMarked();
    NoFiles(FormatImage(d), EmptyTable(), NUM_DIR_ENTRIES);
  }

  // ---------- Writing through a live handle ----------

  /** `d'` has the headers of `d`. */
  ghost predicate SameHeaders(d: DiskImage, d': DiskImage, t: seq<DirEntry>)
    requires AllLive(d, t)
  {
    forall i | 0 <= i < |t| && t[i].inUse :: d'[t[i].sector] == d[t[i].sector]
  }

  lemma {:induction false} UsedSame(d: DiskImage, d': DiskImage, t: seq<DirEntry>, k: nat)
    requires AllLive(d, t) && AllLive(d', t) && k <= |t|
    requires forall i | 0 <= i < |t| && t[i].inUse :: Extent(d', t[i]) == Extent(d, t[i])
    ensures Used(d', t, k) == Used(d, t, k)
  {
    if k > 0 { UsedSame(d, d', t, k - 1); }
  }

  lemma SameHeadersConsistent(d: DiskImage, d': DiskImage, t: seq<DirEntry>, marked: set<int>)
    requires Consistent(d, t, marked) && SameHeaders(d, d', t)
    ensures Consistent(d', t, marked)
  {
    forall i | 0 <= i < |t| && t[i].inUse
      ensures Live(d', t[i]) && Extent(d', t[i]) == Extent(d, t[i])
    { LiveSame(d, d', t[i]); }
    UsedSame(d, d', t, |t|);
  }

  lemma {:induction false} OneFileChanged(d: DiskImage, d': DiskImage, t: seq<DirEntry>, j: nat, k: nat)
    requires AllLive(d, t) && AllLive(d', t) && UniqueNames(t)
    requires j < |t| && t[j].inUse && k <= |t|
    requires forall i | 0 <= i < |t| && t[i].inUse && i != j :: EntryBytes(d', t[i]) == EntryBytes(d, t[i])
    ensures FileMap(d', t, k) == if j < k then FileMap(d, t, k)[FieldKey(t[j].name) := EntryBytes(d', t[j])]
                                 else FileMap(d, t, k)
  {
    if k > 0 {
      var i := k - 1;
      OneFileChanged(d, d', t, j, i);
      FileMapNext(d, t, i);
      FileMapNext(d', t, i);
      if t[i].inUse {
        var key, name := FieldKey(t[j].name), FieldKey(t[i].name);
        assert j < i ==> key != name;
        MapChanged(FileMap(d, t, i), FileMap(d', t, i), key, EntryBytes(d', t[j]), j < i, j == i,
                   name, EntryBytes(d, t[i]), EntryBytes(d', t[i]));
      }
    }
  }

  /** One more entry is put into a map that has changed at one key, or that has
      not changed yet. */
  lemma MapChanged<K, V>(f: map<K, V>, f': map<K, V>, key: K, v: V, before: bool, now: bool, name: K, w: V, w': V)
    requires f' == if before then f[key := v] else f
    requires before ==> name != key && w' == w
    requires !before && now ==> name == key && w' == v
    requires !before && !now ==> w' == w
    ensures f'[name := w'] == if before || now then f[name := w][key := v] else f[name := w]
  {
  }

  /** Changing data sectors of one file changes the bytes of that file only. */
  lemma DataChanged(d: DiskImage, t: seq<DirEntry>, marked: set<int>, j: nat, d': DiskImage)
    requires Consistent(d, t, marked) && j < |t| && t[j].inUse
    requires forall s | 0 <= s < NUM_SECTORS && s !in Data(HeaderAt(d, t[j].sector)) :: d'[s] == d[s]
    ensures Consistent(d', t, marked) && SameHeaders(d, d', t)
    ensures FileMap(d', t, |t|) == FileMap(d, t, |t|)[FieldKey(t[j].name) := EntryBytes(d', t[j])]
  {
    var h := HeaderAt(d, t[j].sector);
    forall i | 0 <= i < |t| && t[i].inUse
      ensures d'[t[i].sector] == d[t[i].sector]
    {
      assert t[i].sector in Extent(d, t[i]) && Elements(Data(h)) <= Extent(d, t[j]);
      assert t[i].sector !in Elements(Data(h));
    }
    SameHeadersConsistent(d, d', t, marked);
    forall i | 0 <= i < |t| && t[i].inUse && i != j
      ensures EntryBytes(d', t[i]) == EntryBytes(d, t[i])
    {
      assert Extent(d, t[i]) !! Elements(Data(h));
      BytesSame(d, d', t[i]);
    }
    OneFileChanged(d, d', t, j, |t|);
  }

  lemma SystemUntouched(d: DiskImage, d': DiskImage)
    requires forall s | s in SYSTEM_SECTORS :: d'[s] == d[s]
    ensures TableOf(d') == TableOf(d) && WordsOf(d') == WordsOf(d)
  {
    assert 2 in SYSTEM_SECTORS && 3 in SYSTEM_SECTORS && 4 in SYSTEM_SECTORS;
    SameTable(d, d');
    SameWords(d, d');
  }

  /** Writing to a file leaves the system's sectors alone. */
  lemma WriteAvoidsSystem(d: DiskImage, e: DirEntry, pos: nat, data: seq<Byte>)
    requires Live(d, e) && pos <= HeaderAt(d, e.sector).numBytes
    ensures forall s | s in SYSTEM_SECTORS :: WriteCall(d, HeaderAt(d, e.sector), pos, data)[s] == d[s]
  {
    CallReplaces(d, HeaderAt(d, e.sector), pos, data);
    forall s | s in SYSTEM_SECTORS
      ensures s !in Data(HeaderAt(d, e.sector))
    {
      assert s !in Extent(d, e);
    }
  }

  lemma WriteConsistent(d: DiskImage, t: seq<DirEntry>, marked: set<int>, j: nat, pos: nat, data: seq<Byte>)
    requires Consistent(d, t, marked) && j < |t| && t[j].inUse
    requires pos <= HeaderAt(d, t[j].sector).numBytes
    ensures var h := HeaderAt(d, t[j].sector);
            var d' := WriteCall(d, h, pos, data);
            && Consistent(d', t, marked) && SameHeaders(d, d', t)
            && FileMap(d', t, |t|) == FileMap(d, t, |t|)[FieldKey(t[j].name) :=
                 Replace(FileBytes(d, h), pos, data[..Clip(h.numBytes, |data|, pos)])]
  {
    var h := HeaderAt(d, t[j].sector);
    var d' := WriteCall(d, h, pos, data);
    CallReplaces(d, h, pos, data);
    DataChanged(d, t, marked, j, d');
  }

  /** Writing through the header of a live file replaces the bytes written and
      nothing else; directory, bitmap and all headers stay as they are. */
  lemma WriteEffect(d: DiskImage, key: CString, h: GoodHeader, pos: nat, data: seq<Byte>)
    requires WellFormed(d) && IndexOf(TableOf(d), key) >= 0 && pos <= h.numBytes
    requires h == HeaderAt(d, TableOf(d)[IndexOf(TableOf(d), key)].sector)
    ensures var d' := WriteCall(d, h, pos, data);
            && WellFormed(d') && TableOf(d') == TableOf(d) && WordsOf(d') == WordsOf(d)
            && SameHeaders(d, d', TableOf(d))
            && Files(d') == Files(d)[key :=
                 Replace(FileBytes(d, h), pos, data[..Clip(h.numBytes, |data|, pos)])]
  {
    var t, j := TableOf(d), IndexOf(TableOf(d), key);
    WriteAvoidsSystem(d, t[j], pos, data);
    SystemUntouched(d, WriteCall(d, h, pos, data));
    assert 0 in SYSTEM_SECTORS && 1 in SYSTEM_SECTORS;
    WriteConsistent(d, t, Marked(WordsOf(d), NUM_SECTORS), j, pos, data);
  }
}
