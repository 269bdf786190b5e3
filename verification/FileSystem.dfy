/** The file system (filesys/filesys.cc): formatting and mounting, creating,
    opening and removing files. */
module FileSystems {
  import opened Bytes
  import opened Bitmaps
  import opened SectorDisk
  import opened FileHeaders
  import opened OpenFiles
  import opened Directories
  import opened FsLayout
  import opened FsOps
  import opened FsTheorems
  import PersistentBitmaps

  /** The marked sectors are exactly those below `k`. */
  predicate FilledTo(ws: seq<Word>, k: nat)
    requires |ws| == NUM_WORDS
  {
    forall i | 0 <= i < NUM_SECTORS :: Test(ws, i) <==> i < k
  }

  lemma NextIs(ws: seq<Word>, k: nat)
    requires |ws| == NUM_WORDS && k < NUM_SECTORS && FilledTo(ws, k)
    ensures FirstClear(ws, NUM_SECTORS) == k && CountClear(ws, NUM_SECTORS) > 0
    ensures FilledTo(Mark(ws, k), k + 1)
  {
    assert !Test(ws, k);
    if CountClear(ws, NUM_SECTORS) == 0 { NoneClear(ws, NUM_SECTORS); }
    forall i | 0 <= i < NUM_SECTORS
      ensures Test(Mark(ws, k), i) <==> i < k + 1
    { TestMark(ws, k, i); }
  }

  /** Formatting gives the bitmap file sector 2 and the directory 3 and 4. */
  lemma FormatTakes(ws: seq<Word>)
    requires |ws| == NUM_WORDS && ws == Mark(Mark(seq(NUM_WORDS, _ => 0), 0), 1)
    ensures 1 <= CountClear(ws, NUM_SECTORS) && Take(ws, NUM_SECTORS, 1) == Allocation(Mark(ws, 2), [2])
    ensures 2 <= CountClear(Mark(ws, 2), NUM_SECTORS)
    ensures Take(Mark(ws, 2), NUM_SECTORS, 2) == Allocation(SystemWords(), [3, 4])
  {
    var w0 := seq(NUM_WORDS, _ => 0);
    forall i | 0 <= i < NUM_SECTORS
      ensures !Test(w0, i)
    { ZeroBits(i % 32); }
    NextIs(w0, 0);
    NextIs(Mark(w0, 0), 1);
    NextIs(ws, 2);
    NextIs(Mark(ws, 2), 3);
    NextIs(Mark(Mark(ws, 2), 3), 4);
    TakeOne(ws, 2);
    TakeTwo(Mark(ws, 2), 3, 4);
  }

  lemma TakeOne(ws: seq<Word>, s: nat)
    requires |ws| == NUM_WORDS && FirstClear(ws, NUM_SECTORS) == s && CountClear(ws, NUM_SECTORS) > 0
    ensures Take(ws, NUM_SECTORS, 1) == Allocation(Mark(ws, s), [s])
  {
    TakeNext(ws, NUM_SECTORS, 0);
  }

  lemma TakeTwo(ws: seq<Word>, s: nat, s': nat)
    requires |ws| == NUM_WORDS && FirstClear(ws, NUM_SECTORS) == s && CountClear(ws, NUM_SECTORS) > 0
    requires s < NUM_SECTORS && FirstClear(Mark(ws, s), NUM_SECTORS) == s' && CountClear(Mark(ws, s), NUM_SECTORS) > 0
    ensures 2 <= CountClear(ws, NUM_SECTORS)
    ensures Take(ws, NUM_SECTORS, 2) == Allocation(Mark(Mark(ws, s), s'), [s, s'])
  {
    ClearBitLeft(ws, NUM_SECTORS);
    TakeOne(ws, s);
    TakeNext(ws, NUM_SECTORS, 1);
  }

  class FileSystem {
    const disk: SynchDisk
    const freeMapFile: OpenFile
    const directoryFile: OpenFile

    /** The two system files are open, and the disk is consistent. */
    ghost predicate Valid()
      reads disk
    {
      && freeMapFile.disk == disk && freeMapFile.hdr == MAP_HEADER
      && directoryFile.disk == disk && directoryFile.hdr == DIR_HEADER
      && WellFormed(disk.sectors)
    }

    /** Formats the disk, or mounts the file system it already holds. */
    constructor (disk: SynchDisk, format: bool)
      requires !format ==> WellFormed(disk.sectors)
      modifies disk
      ensures Valid() && this.disk == disk
      ensures disk.sectors == if format then FormatImage(old(disk.sectors)) else old(disk.sectors)
    {
      this.disk := disk;
      if format {
        var m, t := FormatDisk(disk);
        freeMapFile, directoryFile := m, t;
        FormatEffect(old(disk.sectors));
      } else {
        var m, t := OpenSystemFiles(disk);
        freeMapFile, directoryFile := m, t;
      }
    }

    static method OpenSystemFiles(disk: SynchDisk) returns (freeMapFile: OpenFile, directoryFile: OpenFile)
      requires disk.sectors[FREE_MAP_SECTOR] == EncodeHeader(MAP_HEADER)
      requires disk.sectors[DIRECTORY_SECTOR] == EncodeHeader(DIR_HEADER)
      ensures freeMapFile.disk == directoryFile.disk == disk
      ensures freeMapFile.hdr == MAP_HEADER && directoryFile.hdr == DIR_HEADER
    {
      HeaderRoundTrip(MAP_HEADER);
      HeaderRoundTrip(DIR_HEADER);
      freeMapFile := new OpenFile(disk, FREE_MAP_SECTOR);
      directoryFile := new OpenFile(disk, DIRECTORY_SECTOR);
    }

    static method FormatDisk(disk: SynchDisk) returns (freeMapFile: OpenFile, directoryFile: OpenFile)
      modifies disk
      ensures freeMapFile.disk == directoryFile.disk == disk
      ensures freeMapFile.hdr == MAP_HEADER && directoryFile.hdr == DIR_HEADER
      ensures disk.sectors == FormatImage(old(disk.sectors))
    {
      var freeMap := new Bitmap(NUM_SECTORS);
      var directory := new Directory(NUM_DIR_ENTRIES);
      assert freeMap.words[..] == seq(NUM_WORDS, _ => 0);
      assert directory.table[..] == EmptyTable();
      AllocateSystemFiles(disk, freeMap);
      freeMapFile, directoryFile := OpenSystemFiles(disk);
      PersistentBitmaps.WriteBack(freeMap, freeMapFile);
      directory.WriteBack(directoryFile);
    }

    /** Marks the system sectors and writes the two headers. */
    static method AllocateSystemFiles(disk: SynchDisk, freeMap: Bitmap)
      requires freeMap.Valid() && freeMap.numBits == NUM_SECTORS
      requires freeMap.words[..] == seq(NUM_WORDS, _ => 0)
      modifies disk, freeMap.words
      ensures freeMap.words[..] == SystemWords()
      ensures disk.sectors == old(disk.sectors)[FREE_MAP_SECTOR := EncodeHeader(MAP_HEADER)]
                                               [DIRECTORY_SECTOR := EncodeHeader(DIR_HEADER)]
    {
      freeMap.MarkBit(FREE_MAP_SECTOR);
      freeMap.MarkBit(DIRECTORY_SECTOR);
      var mapHdr := new FileHeader();
      var dirHdr := new FileHeader();
      AllocateBoth(mapHdr, dirHdr, freeMap);
      SaveHeaders(disk, mapHdr, dirHdr);
    }

    static method SaveHeaders(disk: SynchDisk, mapHdr: FileHeader, dirHdr: FileHeader)
      requires mapHdr.Valid() && dirHdr.Valid()
      modifies disk
      ensures disk.sectors == old(disk.sectors)[FREE_MAP_SECTOR := EncodeHeader(mapHdr.Value())]
                                               [DIRECTORY_SECTOR := EncodeHeader(dirHdr.Value())]
    {
      mapHdr.WriteBack(disk, FREE_MAP_SECTOR);
      dirHdr.WriteBack(disk, DIRECTORY_SECTOR);
    }

    static method AllocateBoth(mapHdr: FileHeader, dirHdr: FileHeader, freeMap: Bitmap)
      requires mapHdr.Valid() && mapHdr.dataSectors[..] == seq(NUM_DIRECT, _ => -1)
      requires dirHdr.Valid() && dirHdr.dataSectors[..] == seq(NUM_DIRECT, _ => -1)
      requires mapHdr != dirHdr && mapHdr.dataSectors != dirHdr.dataSectors
      requires freeMap.Valid() && freeMap.numBits == NUM_SECTORS
      requires freeMap.words[..] == Mark(Mark(seq(NUM_WORDS, _ => 0), 0), 1)
      modifies mapHdr, mapHdr.dataSectors, dirHdr, dirHdr.dataSectors, freeMap.words
      ensures freeMap.words[..] == SystemWords()
      ensures mapHdr.Value() == MAP_HEADER && dirHdr.Value() == DIR_HEADER
    {
      FormatTakes(freeMap.words[..]);
      var ok := AllocateNew(mapHdr, freeMap, FREE_MAP_FILE_SIZE);
      assert ok && mapHdr.Value() == MAP_HEADER;
      ok := AllocateNew(dirHdr, freeMap, DIRECTORY_FILE_SIZE);
      assert ok;
    }

    method FetchDirectory() returns (directory: Directory)
      requires Valid()
      ensures fresh(directory) && fresh(directory.table) && directory.table.Length == NUM_DIR_ENTRIES
      ensures directory.table[..] == TableOf(disk.sectors)
    {
      directory := new Directory(NUM_DIR_ENTRIES);
      directory.FetchFrom(directoryFile);
    }

    method FetchFreeMap() returns (freeMap: Bitmap)
      requires Valid()
      ensures fresh(freeMap) && fresh(freeMap.words) && freeMap.Valid() && freeMap.numBits == NUM_SECTORS
      ensures freeMap.words[..] == WordsOf(disk.sectors)
    {
      freeMap := PersistentBitmaps.Fetch(freeMapFile, NUM_SECTORS);
    }

    /** Creates a file of the given size, or changes no byte of the disk. */
    method Create(name: CString, initialSize: nat) returns (success: bool)
      requires Valid() && initialSize <= MAX_FILE_SIZE
      modifies disk
      ensures Valid()
      ensures Outcome(success, disk.sectors) == CreateImage(old(disk.sectors), name, initialSize)
    {
      ghost var d := disk.sectors;
      var directory := FetchDirectory();
      var found := directory.Find(name);
      NotFound(d, Key(name), found);
      if found != -1 {
        return false;
      }
      var freeMap := FetchFreeMap();
      success := CreateIn(directory, freeMap, name, initialSize);
      if success { CreateEffect(d, name, initialSize); }
    }

    /** The part of `Create` that changes the directory and the bitmap. */
    method CreateIn(directory: Directory, freeMap: Bitmap, name: CString, initialSize: nat)
      returns (success: bool)
      requires initialSize <= MAX_FILE_SIZE
      requires freeMapFile.disk == directoryFile.disk == disk
      requires freeMapFile.hdr == MAP_HEADER && directoryFile.hdr == DIR_HEADER
      requires directory.table.Length == NUM_DIR_ENTRIES
      requires freeMap.Valid() && freeMap.numBits == NUM_SECTORS
      requires IndexOf(directory.table[..], Key(name)) < 0
      modifies disk, directory.table, freeMap.words
      ensures var t, ws := old(directory.table[..]), old(freeMap.words[..]);
              var s := FirstClear(ws, NUM_SECTORS);
              && (success <==> s >= 0 && FreeIndex(t) >= 0
                               && SectorsFor(initialSize) <= CountClear(Mark(ws, s), NUM_SECTORS))
              && (!success ==> disk.sectors == old(disk.sectors))
              && (success ==>
                  var a := Take(Mark(ws, s), NUM_SECTORS, SectorsFor(initialSize));
                  disk.sectors == Commit(old(disk.sectors), s, NewHeader(initialSize, a.sectors),
                                         Added(t, name, s), a.words))
    {
      var sector := freeMap.FindAndSet();
      if sector == -1 {
        return false;
      }
      var added := directory.Add(name, sector);
      if !added {
        return false;
      }
      var hdr := new FileHeader();
      success := AllocateNew(hdr, freeMap, initialSize);
      if success {
        hdr.WriteBack(disk, sector);
        directory.WriteBack(directoryFile);
        PersistentBitmaps.WriteBack(freeMap, freeMapFile);
      }
    }

    /** `Allocate` on a header as its constructor leaves it. */
    static method AllocateNew(hdr: FileHeader, freeMap: Bitmap, size: nat) returns (room: bool)
      requires hdr.Valid() && hdr.dataSectors[..] == seq(NUM_DIRECT, _ => -1)
      requires freeMap.Valid() && freeMap.numBits == NUM_SECTORS && size <= MAX_FILE_SIZE
      modifies hdr, hdr.dataSectors, freeMap.words
      ensures room <==> SectorsFor(size) <= CountClear(old(freeMap.words[..]), NUM_SECTORS)
      ensures room ==>
        var a := Take(old(freeMap.words[..]), NUM_SECTORS, SectorsFor(size));
        freeMap.words[..] == a.words && hdr.Value() == NewHeader(size, a.sectors)
    {
      room := hdr.Allocate(freeMap, size);
    }

    /** A handle on the file, if it exists. */
    method Open(name: CString) returns (file: OpenFile?)
      requires Valid()
      ensures file == null <==> Key(name) !in Files(disk.sectors)
      ensures file != null ==>
        && file.disk == disk && file.seekPosition == 0 && Good(file.hdr)
        && Handle(disk.sectors, Key(name), file.hdr)
        && FileBytes(disk.sectors, file.hdr) == Files(disk.sectors)[Key(name)]
    {
      var directory := FetchDirectory();
      var sector := directory.Find(name);
      FilesLookup(disk.sectors, Key(name));
      NotFound(disk.sectors, Key(name), sector);
      file := null;
      if sector >= 0 {
        file := new OpenFile(disk, sector);
      }
    }

    /** Removes the file, or changes no byte of the disk. */
    method Remove(name: CString) returns (success: bool)
      requires Valid()
      modifies disk
      ensures Valid() && AllLiveIn(old(disk.sectors))
      ensures Outcome(success, disk.sectors) == RemoveImage(old(disk.sectors), name)
    {
      ghost var d := disk.sectors;
      LiveEntries(d);
      var directory := FetchDirectory();
      var sector := directory.Find(name);
      NotFound(d, Key(name), sector);
      if sector == -1 {
        return false;
      }
      var freeMap := FetchFreeMap();
      DataMarked(d, Key(name));
      RemoveIn(directory, freeMap, name, sector);
      RemoveEffect(d, name);
      return true;
    }

    /** The part of `Remove` that changes the directory and the bitmap. */
    method RemoveIn(directory: Directory, freeMap: Bitmap, name: CString, sector: int)
      requires freeMapFile.disk == directoryFile.disk == disk
      requires freeMapFile.hdr == MAP_HEADER && directoryFile.hdr == DIR_HEADER
      requires directory.table.Length == NUM_DIR_ENTRIES
      requires freeMap.Valid() && freeMap.numBits == NUM_SECTORS
      requires IndexOf(directory.table[..], Key(name)) >= 0
      requires 0 <= sector < NUM_SECTORS && Good(HeaderAt(disk.sectors, sector))
      requires var h := HeaderAt(disk.sectors, sector);
               forall j | 0 <= j < h.numSectors :: Test(freeMap.words[..], Data(h)[j])
      modifies disk, directory.table, freeMap.words
      ensures disk.sectors == Retract(old(disk.sectors), Removed(old(directory.table[..]), Key(name)),
                                      Freed(old(disk.sectors), old(freeMap.words[..]), sector))
    {
      var fileHdr := new FileHeader();
      fileHdr.FetchFrom(disk, sector);
      fileHdr.Deallocate(freeMap);
      freeMap.ClearBit(sector);
      var _ := directory.Remove(name);
      PersistentBitmaps.WriteBack(freeMap, freeMapFile);
      directory.WriteBack(directoryFile);
    }
  }

  /** A header in memory is the header on disk of the file called `key`. */
  ghost predicate Handle(d: DiskImage, key: CString, h: Header) {
    && IndexOf(TableOf(d), key) >= 0
    && 0 <= Locate(TableOf(d), key) < NUM_SECTORS
    && h == HeaderAt(d, Locate(TableOf(d), key))
  }

  /** A lookup answers -1 exactly when the name is absent; otherwise its answer
      is the sector of a good header. */
  lemma NotFound(d: DiskImage, key: CString, sector: int)
    requires WellFormed(d) && sector == Locate(TableOf(d), key)
    ensures sector == -1 <==> IndexOf(TableOf(d), key) < 0
    ensures sector != -1 ==> 0 <= sector < NUM_SECTORS && Good(HeaderAt(d, sector))
  {
    if IndexOf(TableOf(d), key) >= 0 { assert Live(d, TableOf(d)[IndexOf(TableOf(d), key)]); }
  }

  /** The data sectors of a listed file are marked. */
  lemma DataMarked(d: DiskImage, key: CString)
    requires WellFormed(d) && IndexOf(TableOf(d), key) >= 0
    ensures var h := HeaderAt(d, Locate(TableOf(d), key));
            forall j | 0 <= j < h.numSectors :: Test(WordsOf(d), Data(h)[j])
  {
    var t, i := TableOf(d), IndexOf(TableOf(d), key);
    var h := HeaderAt(d, t[i].sector);
    ExtentUsed(d, t, i);
    forall j | 0 <= j < h.numSectors
      ensures Test(WordsOf(d), Data(h)[j])
    {
      assert Data(h)[j] in Extent(d, t[i]);
      assert Data(h)[j] in Marked(WordsOf(d), NUM_SECTORS);
    }
  }
}
