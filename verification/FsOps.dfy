/** The disk images that the file-system operations produce, and what they do
    to the files. */
module FsOps {
  import opened Bytes
  import opened Bitmaps
  import opened SectorDisk
  import opened FileHeaders
  import opened Sequences
  import opened OpenFiles
  import opened Directories
  import opened FsLayout

  datatype Outcome = Outcome(ok: bool, image: DiskImage)

  // ---------- The operations on disk images ----------

  const EMPTY_ENTRY: DirEntry := Entry(false, 0, seq(FILE_NAME_MAX_LEN + 1, _ => 0))

  function EmptyTable(): (t: seq<DirEntry>) {
    seq(NUM_DIR_ENTRIES, _ => EMPTY_ENTRY)
  }

  /** The bitmap of an empty file system. */
  function SystemWords(): (ws: seq<Word>)
    ensures |ws| == NUM_WORDS
  {
    Mark(Mark(Mark(Mark(Mark(seq(NUM_WORDS, _ => 0), 0), 1), 2), 3), 4)
  }

  function FormatImage(d: DiskImage): DiskImage {
    var headers := d[FREE_MAP_SECTOR := EncodeHeader(MAP_HEADER)]
                    [DIRECTORY_SECTOR := EncodeHeader(DIR_HEADER)];
    SaveTable(SaveWords(headers, SystemWords()), EmptyTable())
  }

  /** A new header is written, then the directory, then the bitmap. */
  function Commit(d: DiskImage, s: int, h: Header, t: seq<DirEntry>, ws: seq<Word>): DiskImage
    requires 0 <= s < NUM_SECTORS
  {
    SaveWords(SaveTable(d[s := EncodeHeader(h)], t), ws)
  }

  function CreateImage(d: DiskImage, name: CString, size: nat): Outcome
    requires size <= MAX_FILE_SIZE
  {
    var t, ws := TableOf(d), WordsOf(d);
    var s := FirstClear(ws, NUM_SECTORS);
    if IndexOf(t, Key(name)) >= 0 || s < 0 || FreeIndex(t) < 0 then Outcome(false, d)
    else if CountClear(Mark(ws, s), NUM_SECTORS) < SectorsFor(size) then Outcome(false, d)
    else
      var a := Take(Mark(ws, s), NUM_SECTORS, SectorsFor(size));
      Outcome(true, Commit(d, s, NewHeader(size, a.sectors), Added(t, name, s), a.words))
  }

  function RemoveImage(d: DiskImage, name: CString): Outcome
    requires AllLiveIn(d)
  {
    var t := TableOf(d);
    var i := IndexOf(t, Key(name));
    if i < 0 then Outcome(false, d)
    else
      Outcome(true, Retract(d, Removed(t, Key(name)), Freed(d, WordsOf(d), t[i].sector)))
  }

  /** The bitmap without the sectors of the file whose header is at `s`. */
  function Freed(d: DiskImage, ws: seq<Word>, s: int): (r: seq<Word>)
    requires |ws| == NUM_WORDS && 0 <= s < NUM_SECTORS && Good(HeaderAt(d, s))
    ensures |r| == NUM_WORDS
  {
    Clear(ClearAll(ws, Data(HeaderAt(d, s))), s)
  }

  /** The bitmap is written, then the directory. */
  function Retract(d: DiskImage, t: seq<DirEntry>, ws: seq<Word>): DiskImage {
    SaveTable(SaveWords(d, ws), t)
  }

  /** Every entry in use leads to a good header on the disk. */
  predicate AllLiveIn(d: DiskImage) {
    forall i | 0 <= i < NUM_DIR_ENTRIES && TableOf(d)[i].inUse ::
      && 0 <= TableOf(d)[i].sector < NUM_SECTORS
      && Good(HeaderAt(d, TableOf(d)[i].sector))
  }

  // ---------- Frames ----------

  lemma LiveSame(d: DiskImage, d': DiskImage, e: DirEntry)
    requires Live(d, e) && d'[e.sector] == d[e.sector]
    ensures Live(d', e) && Extent(d', e) == Extent(d, e)
    ensures HeaderAt(d', e.sector) == HeaderAt(d, e.sector)
  {
  }

  lemma BytesSame(d: DiskImage, d': DiskImage, e: DirEntry)
    requires Live(d, e) && AgreeOn(d, d', Extent(d, e))
    ensures Live(d', e) && EntryBytes(d', e) == EntryBytes(d, e)
  {
    assert e.sector in Extent(d, e);
    LiveSame(d, d', e);
    var h := HeaderAt(d, e.sector);
    forall i | 0 <= i < h.numSectors
      ensures d'[Data(h)[i]] == d[Data(h)[i]]
    {
      assert Data(h)[i] in Extent(d, e);
    }
    SameSectorsSameBytes(d, d', h);
  }

  lemma ExtentUsed(d: DiskImage, t: seq<DirEntry>, i: nat)
    requires AllLive(d, t) && i < |t| && t[i].inUse
    ensures Extent(d, t[i]) <= Used(d, t, |t|)
  {
    forall x | x in Extent(d, t[i])
      ensures x in Used(d, t, |t|)
    { UsedMember(d, t, |t|, x); }
  }

  lemma {:induction false} SystemUsed(d: DiskImage, t: seq<DirEntry>, k: nat)
    requires AllLive(d, t) && k <= |t|
    ensures SYSTEM_SECTORS <= Used(d, t, k)
  {
    if k > 0 { SystemUsed(d, t, k - 1); }
  }

  /** Outside the system's data sectors, `d'` agrees with `d` on `S`. */
  ghost predicate AgreeOn(d: DiskImage, d': DiskImage, S: set<int>) {
    forall s | s in S && 0 <= s < NUM_SECTORS && s != 2 && s != 3 && s != 4 :: d'[s] == d[s]
  }

  // ---------- A slot of the directory is filled ----------

  /** `d'` with table `t'` is `d` with `t` plus one file, in slot `j`. */
  ghost predicate SlotFilled(d: DiskImage, t: seq<DirEntry>, d': DiskImage, t': seq<DirEntry>, j: nat)
    requires AllLive(d, t)
  {
    && |t'| == |t| && j < |t| && !t[j].inUse && t'[j].inUse
    && (forall i | 0 <= i < |t| && i != j :: t'[i] == t[i])
    && Live(d', t'[j])
    && AgreeOn(d, d', Used(d, t, |t|))
    && Extent(d', t'[j]) !! Used(d, t, |t|)
  }

  lemma FilledLive(d: DiskImage, t: seq<DirEntry>, d': DiskImage, t': seq<DirEntry>, j: nat)
    requires AllLive(d, t) && SlotFilled(d, t, d', t', j)
    ensures AllLive(d', t') && SameOthers(d, t, d', t', j)
    ensures forall i | 0 <= i < |t| && t[i].inUse ::
              Extent(d', t'[i]) == Extent(d, t[i]) && EntryBytes(d', t'[i]) == EntryBytes(d, t[i])
  {
    forall i | 0 <= i < |t| && t[i].inUse
      ensures d'[t[i].sector] == d[t[i].sector]
      ensures Live(d', t[i]) && Extent(d', t[i]) == Extent(d, t[i])
      ensures EntryBytes(d', t[i]) == EntryBytes(d, t[i])
    {
      ExtentUsed(d, t, i);
      assert t[i].sector in Extent(d, t[i]);
      LiveSame(d, d', t[i]);
      BytesSame(d, d', t[i]);
    }
  }

  lemma FilledConsistent(d: DiskImage, t: seq<DirEntry>, marked: set<int>, d': DiskImage, t': seq<DirEntry>, j: nat)
    requires Consistent(d, t, marked) && SlotFilled(d, t, d', t', j)
    requires IndexOf(t, FieldKey(t'[j].name)) < 0
    ensures Consistent(d', t', marked + Extent(d', t'[j]))
  {
    FilledLive(d, t, d', t', j);
    UsedWithSlot(d, t, d', t', j, |t|);
    forall i, k | 0 <= i < k < |t| && t'[i].inUse && t'[k].inUse
      ensures Extent(d', t'[i]) !! Extent(d', t'[k])
    {
      if i == j { ExtentUsed(d, t, k); }
      else if k == j { ExtentUsed(d, t, i); }
    }
    forall i | 0 <= i < |t| && t[i].inUse
      ensures FieldKey(t[i].name) != FieldKey(t'[j].name)
    {
      assert !Matches(t[i], FieldKey(t'[j].name));
    }
  }

  /** The maps differ by the new file, and by nothing else. */
  lemma {:induction false} FilledFiles(d: DiskImage, t: seq<DirEntry>, d': DiskImage, t': seq<DirEntry>, j: nat, k: nat)
    requires AllLive(d, t) && AllLive(d', t') && SlotFilled(d, t, d', t', j) && k <= |t|
    requires UniqueNames(t')
    ensures FileMap(d', t', k) == if j < k then FileMap(d, t, k)[FieldKey(t'[j].name) := EntryBytes(d', t'[j])]
                                  else FileMap(d, t, k)
  {
    if k > 0 {
      var i := k - 1;
      FilledFiles(d, t, d', t', j, i);
      FileMapNext(d, t, i);
      FileMapNext(d', t', i);
      if t'[i].inUse {
        var key, name := FieldKey(t'[j].name), FieldKey(t'[i].name);
        if i != j { SameBytesAt(d, t, d', t', j, i); }
        assert j < i ==> key != name;
        MapFilled(FileMap(d, t, i), key, EntryBytes(d', t'[j]), name, EntryBytes(d', t'[i]));
      }
    }
  }

  lemma MapFilled<K, V>(f: map<K, V>, key: K, v: V, name: K, w: V)
    ensures key != name ==> f[key := v][name := w] == f[name := w][key := v]
  {
  }

  lemma SameBytesAt(d: DiskImage, t: seq<DirEntry>, d': DiskImage, t': seq<DirEntry>, j: nat, i: nat)
    requires AllLive(d, t) && AllLive(d', t') && SlotFilled(d, t, d', t', j)
    requires i < |t| && t[i].inUse
    ensures EntryBytes(d', t'[i]) == EntryBytes(d, t[i])
  {
    FilledLive(d, t, d', t', j);
  }

  // ---------- A slot of the directory is emptied ----------

  lemma EmptiedConsistent(d: DiskImage, t: seq<DirEntry>, marked: set<int>, d': DiskImage, t': seq<DirEntry>, j: nat)
    requires Consistent(d, t, marked) && j < |t| && t[j].inUse
    requires t' == t[j := t[j].(inUse := false)]
    requires AgreeOn(d, d', marked)
    ensures Consistent(d', t', marked - Extent(d, t[j]))
    ensures SlotFilled(d', t', d, t, j)
  {
    forall i | 0 <= i < |t| && t'[i].inUse
      ensures Live(d', t'[i]) && Extent(d', t'[i]) == Extent(d, t[i]) && Extent(d, t[i]) !! Extent(d, t[j])
      ensures d'[t[i].sector] == d[t[i].sector]
    {
      ExtentUsed(d, t, i);
      assert t[i].sector in Extent(d, t[i]);
      LiveSame(d, d', t[i]);
    }
    UsedWithSlot(d', t', d, t, j, |t|);
    forall x | x in Extent(d, t[j])
      ensures x !in Used(d', t', |t|)
    { UsedMember(d', t', |t|, x); }
  }

  lemma EmptiedFiles(d: DiskImage, t: seq<DirEntry>, d': DiskImage, t': seq<DirEntry>, j: nat)
    requires AllLive(d, t) && AllLive(d', t') && SlotFilled(d', t', d, t, j)
    requires UniqueNames(t)
    ensures FileMap(d', t', |t|) == FileMap(d, t, |t|) - {FieldKey(t[j].name)}
  {
    var key := FieldKey(t[j].name);
    FilledFiles(d', t', d, t, j, |t|);
    forall i | 0 <= i < |t'|
      ensures !Matches(t'[i], key)
    {}
    FileMapAbsent(d', t', |t'|, key);
  }

  // ---------- Create ----------

  lemma SavedBoth(d: DiskImage, t: seq<DirEntry>, ws: seq<Word>)
    requires |t| == NUM_DIR_ENTRIES && |ws| == NUM_WORDS
    ensures TableOf(SaveWords(SaveTable(d, t), ws)) == t
    ensures WordsOf(SaveWords(SaveTable(d, t), ws)) == ws
  {
    SavedTable(d, t);
    SavedWords(SaveTable(d, t), ws);
  }

  lemma SavedElsewhere(d: DiskImage, t: seq<DirEntry>, ws: seq<Word>, x: int)
    requires |t| == NUM_DIR_ENTRIES && |ws| == NUM_WORDS
    requires 0 <= x < NUM_SECTORS && x != 2 && x != 3 && x != 4
    ensures SaveWords(SaveTable(d, t), ws)[x] == d[x]
  {
    SavedTable(d, t);
    SavedWords(SaveTable(d, t), ws);
  }

  lemma Committed(d: DiskImage, s: int, h: Header, t: seq<DirEntry>, ws: seq<Word>)
    requires 0 <= s < NUM_SECTORS && s !in SYSTEM_SECTORS
    requires |t| == NUM_DIR_ENTRIES && |ws| == NUM_WORDS
    ensures HeaderAt(Commit(d, s, h, t, ws), s) == h
    ensures forall x | 0 <= x < NUM_SECTORS && x != 2 && x != 3 && x != 4 && x != s ::
              Commit(d, s, h, t, ws)[x] == d[x]
  {
    var d1 := d[s := EncodeHeader(h)];
    HeaderRoundTrip(h);
    SavedElsewhere(d1, t, ws, s);
    forall x | 0 <= x < NUM_SECTORS && x != 2 && x != 3 && x != 4 && x != s
      ensures Commit(d, s, h, t, ws)[x] == d[x]
    {
      SavedElsewhere(d1, t, ws, x);
    }
  }

  /** The sectors `Create` takes are free ones. */
  lemma CreateTakesFree(ws: seq<Word>, size: nat)
    requires |ws| == NUM_WORDS
    requires FirstClear(ws, NUM_SECTORS) >= 0
    requires SectorsFor(size) <= CountClear(Mark(ws, FirstClear(ws, NUM_SECTORS)), NUM_SECTORS)
    ensures var s := FirstClear(ws, NUM_SECTORS);
            var a := Take(Mark(ws, s), NUM_SECTORS, SectorsFor(size));
            && s !in Marked(ws, NUM_SECTORS) && s !in a.sectors
            && Elements(a.sectors) !! Marked(ws, NUM_SECTORS)
            && Distinct(a.sectors) && Within(a.sectors, NUM_SECTORS)
            && Marked(a.words, NUM_SECTORS) == Marked(ws, NUM_SECTORS) + {s} + Elements(a.sectors)
  {
    var s := FirstClear(ws, NUM_SECTORS);
    MarkedMark(ws, NUM_SECTORS, s);
    TakeMarks(Mark(ws, s), NUM_SECTORS, SectorsFor(size));
  }

  lemma CreateFills(d: DiskImage, t: seq<DirEntry>, marked: set<int>, name: CString, size: nat,
                    s: Int32, sectors: seq<Int32>, d': DiskImage)
    requires Consistent(d, t, marked) && size <= MAX_FILE_SIZE && FreeIndex(t) >= 0
    requires |sectors| == SectorsFor(size) && Distinct(sectors) && Within(sectors, NUM_SECTORS)
    requires 0 <= s < NUM_SECTORS && s !in marked && s !in sectors && Elements(sectors) !! marked
    requires HeaderAt(d', s) == NewHeader(size, sectors)
    requires forall x | 0 <= x < NUM_SECTORS && x != 2 && x != 3 && x != 4 && x != s :: d'[x] == d[x]
    ensures SlotFilled(d, t, d', Added(t, name, s), FreeIndex(t))
    ensures Extent(d', Added(t, name, s)[FreeIndex(t)]) == {s} + Elements(sectors)
  {
    SystemUsed(d, t, |t|);
  }
}
