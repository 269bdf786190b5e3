/** Runs of the file system: any sequence of creations, removals, openings,
    writes through handles of live files, and remounts.  Every state of every
    run is consistent, and refines a map from names to byte strings. */
module FsRuns {
  import opened Bytes
  import opened Bitmaps
  import opened SectorDisk
  import opened FileHeaders
  import opened OpenFiles
  import opened Directories
  import opened FsLayout
  import opened FsOps
  import opened FsTheorems
  import opened FileSystems

  datatype Op =
    | Create(name: CString, size: nat)
    | Remove(name: CString)
    | Open(id: int, name: CString)
    | Write(id: int, pos: nat, data: seq<Byte>)
    | Remount

  /** A handle keeps the header that was on disk when it was opened. */
  datatype OpenHandle = OpenHandle(key: CString, hdr: Header)

  datatype State = State(image: DiskImage, handles: map<int, OpenHandle>)

  predicate Allowed(op: Op) {
    op.Create? ==> op.size <= MAX_FILE_SIZE
  }

  /** The disk is consistent, and every handle that is still usable has the
      header its file has on disk. */
  ghost predicate Inv(s: State) {
    && WellFormed(s.image)
    && forall id | id in s.handles ::
         Good(s.handles[id].hdr) && Handle(s.image, s.handles[id].key, s.handles[id].hdr)
  }

  /** The handles that are not on `key`. */
  ghost function Others(hs: map<int, OpenHandle>, key: CString): map<int, OpenHandle> {
    map id | id in hs && hs[id].key != key :: hs[id]
  }

  /** One call.  Handles of a removed file, and all handles of an earlier
      mount, are not used again. */
  ghost function Step(s: State, op: Op): State
    requires Inv(s) && Allowed(op)
  {
    match op
    case Create(name, size) => s.(image := CreateImage(s.image, name, size).image)
    case Remove(name) =>
      LiveEntries(s.image);
      State(RemoveImage(s.image, name).image, Others(s.handles, Key(name)))
    case Open(id, name) =>
      if IndexOf(TableOf(s.image), Key(name)) < 0 then s.(handles := s.handles - {id})
      else
        NotFound(s.image, Key(name), Locate(TableOf(s.image), Key(name)));
        var h := HeaderAt(s.image, Locate(TableOf(s.image), Key(name)));
        s.(handles := s.handles[id := OpenHandle(Key(name), h)])
    case Write(id, pos, data) =>
      if id in s.handles then s.(image := WriteCall(s.image, s.handles[id].hdr, pos, data)) else s
    case Remount => s.(handles := map[])
  }

  // ---------- Handles survive ----------

  lemma HandleKept(d: DiskImage, d': DiskImage, key: CString, h: Header)
    requires Handle(d, key, h)
    requires Locate(TableOf(d'), key) == Locate(TableOf(d), key)
    requires d'[Locate(TableOf(d), key)] == d[Locate(TableOf(d), key)]
    ensures Handle(d', key, h)
  {
  }

  /** Creating a file writes no sector of another. */
  lemma CreatedElsewhere(d: DiskImage, name: CString, size: nat, x: int)
    requires WellFormed(d) && size <= MAX_FILE_SIZE && CreateImage(d, name, size).ok
    requires x in Marked(WordsOf(d), NUM_SECTORS) && x !in SYSTEM_SECTORS
    ensures CreateImage(d, name, size).image[x] == d[x]
  {
    CommitElsewhere(d, TableOf(d), WordsOf(d), name, size, x);
  }

  lemma CommitElsewhere(d: DiskImage, t: seq<DirEntry>, ws: seq<Word>, name: CString, size: nat, x: int)
    requires |t| == NUM_DIR_ENTRIES && |ws| == NUM_WORDS && size <= MAX_FILE_SIZE
    requires Consistent(d, t, Marked(ws, NUM_SECTORS))
    requires FreeIndex(t) >= 0 && FirstClear(ws, NUM_SECTORS) >= 0
    requires SectorsFor(size) <= CountClear(Mark(ws, FirstClear(ws, NUM_SECTORS)), NUM_SECTORS)
    requires x in Marked(ws, NUM_SECTORS) && x !in SYSTEM_SECTORS
    ensures var s := FirstClear(ws, NUM_SECTORS);
            var a := Take(Mark(ws, s), NUM_SECTORS, SectorsFor(size));
            Commit(d, s, NewHeader(size, a.sectors), Added(t, name, s), a.words)[x] == d[x]
  {
    var s := FirstClear(ws, NUM_SECTORS);
    var a := Take(Mark(ws, s), NUM_SECTORS, SectorsFor(size));
    assert s !in SYSTEM_SECTORS by { SystemUsed(d, t, NUM_DIR_ENTRIES); }
    Committed(d, s, NewHeader(size, a.sectors), Added(t, name, s), a.words);
  }

  lemma CreateKeepsHandle(d: DiskImage, name: CString, size: nat, key: CString, h: Header)
    requires WellFormed(d) && size <= MAX_FILE_SIZE && CreateImage(d, name, size).ok
    requires Handle(d, key, h)
    ensures Handle(CreateImage(d, name, size).image, key, h)
  {
    CreatedParts(d, name, size);
    AddedKeepsIndex(TableOf(d), name, FirstClear(WordsOf(d), NUM_SECTORS), key);
    EntrySectorUsed(d, IndexOf(TableOf(d), key));
    CreatedElsewhere(d, name, size, Locate(TableOf(d), key));
    HandleKept(d, CreateImage(d, name, size).image, key, h);
  }

  lemma EntrySectorUsed(d: DiskImage, i: nat)
    requires WellFormed(d) && i < NUM_DIR_ENTRIES && TableOf(d)[i].inUse
    ensures var x := TableOf(d)[i].sector;
            x !in SYSTEM_SECTORS && x in Marked(WordsOf(d), NUM_SECTORS)
  {
    ExtentUsed(d, TableOf(d), i);
    assert TableOf(d)[i].sector in Extent(d, TableOf(d)[i]);
  }

  lemma AddedKeepsIndex(t: seq<DirEntry>, name: CString, s: Int32, key: CString)
    requires FreeIndex(t) >= 0 && IndexOf(t, Key(name)) < 0 && IndexOf(t, key) >= 0
    ensures IndexOf(Added(t, name, s), key) == IndexOf(t, key)
    ensures Added(t, name, s)[IndexOf(t, key)] == t[IndexOf(t, key)]
  {
    var j, t' := FreeIndex(t), Added(t, name, s);
    StoredNameIsKey(t[j].name, name);
    assert Matches(t[IndexOf(t, key)], key);
    forall i | 0 <= i < |t|
      ensures Matches(t'[i], key) == Matches(t[i], key)
    {}
  }

  lemma RemovedElsewhere(d: DiskImage, name: CString, x: int)
    requires AllLiveIn(d) && RemoveImage(d, name).ok
    requires 0 <= x < NUM_SECTORS && x !in SYSTEM_SECTORS
    ensures RemoveImage(d, name).image[x] == d[x]
  {
    var t, j := TableOf(d), IndexOf(TableOf(d), Key(name));
    RemovedSaved(d, Removed(t, Key(name)), Freed(d, WordsOf(d), t[j].sector));
  }

  lemma RemoveKeepsHandle(d: DiskImage, name: CString, key: CString, h: Header)
    requires WellFormed(d) && AllLiveIn(d) && RemoveImage(d, name).ok
    requires Handle(d, key, h) && key != Key(name)
    ensures Handle(RemoveImage(d, name).image, key, h)
  {
    RemovedParts(d, name);
    RemovedKeepsIndex(TableOf(d), Key(name), key);
    EntrySectorUsed(d, IndexOf(TableOf(d), key));
    RemovedElsewhere(d, name, Locate(TableOf(d), key));
    HandleKept(d, RemoveImage(d, name).image, key, h);
  }

  lemma RemovedKeepsIndex(t: seq<DirEntry>, gone: CString, key: CString)
    requires IndexOf(t, gone) >= 0 && IndexOf(t, key) >= 0 && gone != key
    ensures IndexOf(Removed(t, gone), key) == IndexOf(t, key)
    ensures Removed(t, gone)[IndexOf(t, key)] == t[IndexOf(t, key)]
  {
    forall i | 0 <= i < |t|
      ensures Matches(Removed(t, gone)[i], key) == Matches(t[i], key)
    {}
  }

  lemma WriteKeepsHandle(d: DiskImage, d': DiskImage, key: CString, h: Header)
    requires WellFormed(d) && TableOf(d') == TableOf(d) && SameHeaders(d, d', TableOf(d))
    requires Handle(d, key, h)
    ensures Handle(d', key, h)
  {
    assert TableOf(d)[IndexOf(TableOf(d), key)].inUse;
    HandleKept(d, d', key, h);
  }

  // ---------- The abstract machine ----------

  /** Files by name, and for each usable handle the file it is on. */
  datatype Abstract = Abstract(files: map<CString, seq<Byte>>, handles: map<int, CString>)

  ghost function Abs(s: State): Abstract
    requires Inv(s)
  {
    Abstract(Files(s.image), KeysOf(s.handles))
  }

  ghost function KeysOf(hs: map<int, OpenHandle>): map<int, CString> {
    map id | id in hs :: hs[id].key
  }

  ghost predicate AbstractNext(a: Abstract, op: Op, b: Abstract) {
    match op
    case Create(name, size) =>
      if Key(name) in a.files || |a.files| >= NUM_DIR_ENTRIES then b == a
      else
        && Key(name) in b.files && |b.files[Key(name)]| == size
        && b == a.(files := a.files[Key(name) := b.files[Key(name)]])
    case Remove(name) =>
      && b.files == a.files - {Key(name)}
      && b.handles == map id | id in a.handles && a.handles[id] != Key(name) :: a.handles[id]
    case Open(id, name) =>
      b == a.(handles := if Key(name) in a.files then a.handles[id := Key(name)] else a.handles - {id})
    case Write(id, pos, data) =>
      if id in a.handles && a.handles[id] in a.files then
        var key := a.handles[id];
        var f := a.files[key];
        var n := Clip(|f|, |data|, pos);
        b == if n == 0 then a else a.(files := a.files[key := Replace(f, pos, data[..n])])
      else b == a
    case Remount => b == a.(handles := map[])
  }

  // ---------- Every step ----------

  lemma CreateStep(s: State, name: CString, size: nat)
    requires Inv(s) && size <= MAX_FILE_SIZE
    ensures Inv(Step(s, Create(name, size)))
    ensures AbstractNext(Abs(s), Create(name, size), Abs(Step(s, Create(name, size))))
  {
    var d := s.image;
    CreateSucceedsIff(d, name, size);
    CreateSucceedsOnFiles(d, name, size);
    if CreateImage(d, name, size).ok {
      CreateEffect(d, name, size);
      forall id | id in s.handles
        ensures Handle(CreateImage(d, name, size).image, s.handles[id].key, s.handles[id].hdr)
      {
        CreateKeepsHandle(d, name, size, s.handles[id].key, s.handles[id].hdr);
      }
    }
  }

  lemma RemoveStepInv(s: State, name: CString)
    requires Inv(s)
    ensures Inv(Step(s, Remove(name)))
  {
    var d := s.image;
    RemoveSucceedsIff(d, name);
    if RemoveImage(d, name).ok {
      RemoveEffect(d, name);
      forall id | id in s.handles && s.handles[id].key != Key(name)
        ensures Handle(RemoveImage(d, name).image, s.handles[id].key, s.handles[id].hdr)
      {
        RemoveKeepsHandle(d, name, s.handles[id].key, s.handles[id].hdr);
      }
    }
  }

  lemma RemoveStep(s: State, name: CString)
    requires Inv(s)
    ensures Inv(Step(s, Remove(name)))
    ensures AbstractNext(Abs(s), Remove(name), Abs(Step(s, Remove(name))))
  {
    RemoveStepInv(s, name);
    RemoveFiles(s.image, name);
    OthersKeys(s.handles, Key(name));
  }

  lemma RemoveFiles(d: DiskImage, name: CString)
    requires WellFormed(d) && AllLiveIn(d)
    ensures WellFormed(RemoveImage(d, name).image)
    ensures Files(RemoveImage(d, name).image) == Files(d) - {Key(name)}
  {
    RemoveSucceedsIff(d, name);
    if RemoveImage(d, name).ok {
      RemoveEffect(d, name);
    } else {
      var m := Files(d);
      assert m - {Key(name)} == m;
    }
  }

  lemma OthersKeys(hs: map<int, OpenHandle>, key: CString)
    ensures KeysOf(Others(hs, key)) == map id | id in KeysOf(hs) && KeysOf(hs)[id] != key :: KeysOf(hs)[id]
  {
  }

  lemma OpenStep(s: State, id: int, name: CString)
    requires Inv(s)
    ensures Inv(Step(s, Open(id, name)))
    ensures AbstractNext(Abs(s), Open(id, name), Abs(Step(s, Open(id, name))))
  {
    FilesLookup(s.image, Key(name));
    NotFound(s.image, Key(name), Locate(TableOf(s.image), Key(name)));
    KeysOfChange(s.handles, id, OpenHandle(Key(name), MAP_HEADER));
    if IndexOf(TableOf(s.image), Key(name)) >= 0 {
      KeysOfChange(s.handles, id,
                   OpenHandle(Key(name), HeaderAt(s.image, Locate(TableOf(s.image), Key(name)))));
    }
  }

  lemma KeysOfChange(hs: map<int, OpenHandle>, id: int, h: OpenHandle)
    ensures KeysOf(hs[id := h]) == KeysOf(hs)[id := h.key]
    ensures KeysOf(hs - {id}) == KeysOf(hs) - {id}
  {
  }

  /** A handle reads the bytes of its file. */
  lemma HandleReads(s: State, id: int)
    requires Inv(s) && id in s.handles
    ensures s.handles[id].key in Files(s.image)
    ensures FileBytes(s.image, s.handles[id].hdr) == Files(s.image)[s.handles[id].key]
  {
    FilesLookup(s.image, s.handles[id].key);
  }

  lemma WriteStep(s: State, id: int, pos: nat, data: seq<Byte>)
    requires Inv(s)
    ensures Inv(Step(s, Write(id, pos, data)))
    ensures AbstractNext(Abs(s), Write(id, pos, data), Abs(Step(s, Write(id, pos, data))))
  {
    if id in s.handles {
      var key, h := s.handles[id].key, s.handles[id].hdr;
      HandleReads(s, id);
      if Clip(h.numBytes, |data|, pos) > 0 {
        var d' := WriteCall(s.image, h, pos, data);
        WriteEffect(s.image, key, h, pos, data);
        forall i | i in s.handles
          ensures Handle(d', s.handles[i].key, s.handles[i].hdr)
        {
          WriteKeepsHandle(s.image, d', s.handles[i].key, s.handles[i].hdr);
        }
      }
    }
  }

  lemma StepRefines(s: State, op: Op)
    requires Inv(s) && Allowed(op)
    ensures Inv(Step(s, op))
    ensures AbstractNext(Abs(s), op, Abs(Step(s, op)))
  {
    match op
    case Create(name, size) => CreateStep(s, name, size);
    case Remove(name) => RemoveStep(s, name);
    case Open(id, name) => OpenStep(s, id, name);
    case Write(id, pos, data) => WriteStep(s, id, pos, data);
    case Remount =>
  }

  // ---------- Every run ----------

  predicate AllAllowed(ops: seq<Op>) {
    forall i | 0 <= i < |ops| :: Allowed(ops[i])
  }

  /** The states of a run, the first and the last included. */
  ghost function Run(s: State, ops: seq<Op>): (states: seq<State>)
    requires Inv(s) && AllAllowed(ops)
    ensures |states| == |ops| + 1 && states[0] == s
    decreases |ops|
  {
    if ops == [] then [s]
    else
      StepRefines(s, ops[0]);
      [s] + Run(Step(s, ops[0]), ops[1..])
  }

  lemma {:induction false} RunAt(s: State, ops: seq<Op>, i: nat)
    requires Inv(s) && AllAllowed(ops) && i <= |ops|
    ensures Inv(Run(s, ops)[i])
    ensures i < |ops| ==>
            && Run(s, ops)[i + 1] == Step(Run(s, ops)[i], ops[i]) && Inv(Run(s, ops)[i + 1])
            && AbstractNext(Abs(Run(s, ops)[i]), ops[i], Abs(Run(s, ops)[i + 1]))
    decreases i
  {
    if ops != [] {
      StepRefines(s, ops[0]);
      var s1, rest := Step(s, ops[0]), ops[1..];
      assert Run(s, ops) == [s] + Run(s1, rest);
      if i > 0 {
        RunAt(s1, rest, i - 1);
      }
    }
  }

  /** Every state of every run is consistent, and every step of it is a step of
      the map from names to byte strings. */
  lemma RunRefines(s: State, ops: seq<Op>)
    requires Inv(s) && AllAllowed(ops)
    ensures forall i | 0 <= i <= |ops| :: Inv(Run(s, ops)[i])
    ensures forall i | 0 <= i < |ops| ::
              AbstractNext(Abs(Run(s, ops)[i]), ops[i], Abs(Run(s, ops)[i + 1]))
  {
    forall i | 0 <= i <= |ops|
      ensures Inv(Run(s, ops)[i])
    { RunAt(s, ops, i); }
    forall i | 0 <= i < |ops|
      ensures AbstractNext(Abs(Run(s, ops)[i]), ops[i], Abs(Run(s, ops)[i + 1]))
    { RunAt(s, ops, i); }
  }

  /** Whatever was on the disk before formatting, and whatever is done after
      it, the bitmap marks exactly the sectors in use and sectors are
      conserved. */
  lemma FormattedRunConsistent(d: DiskImage, ops: seq<Op>, i: nat)
    requires AllAllowed(ops) && i <= |ops|
    ensures Inv(State(FormatImage(d), map[]))
    ensures var final := Run(State(FormatImage(d), map[]), ops)[i].image;
            && WellFormed(final)
            && CountClear(WordsOf(final), NUM_SECTORS) + 5
               + FileSectors(final, TableOf(final), NUM_DIR_ENTRIES) == NUM_SECTORS
  {
    FormatEffect(d);
    var s := State(FormatImage(d), map[]);
    RunRefines(s, ops);
    assert Inv(Run(s, ops)[i]);
    SectorsConserved(Run(s, ops)[i].image);
  }
}
