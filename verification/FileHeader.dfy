/** File headers (filesys/filehdr.cc): the table of data sectors of a file,
    exactly one disk sector long. */
module FileHeaders {
  import opened Bytes
  import opened Bitmaps
  import opened SectorDisk
  import opened Sequences

  const NUM_DIRECT := (SECTOR_SIZE - 2 * 4) / 4
  const MAX_FILE_SIZE := NUM_DIRECT * SECTOR_SIZE

  datatype RawHeader = Header(numBytes: Int32, numSectors: Int32, dataSectors: seq<Int32>)
  type Header = h: RawHeader | |h.dataSectors| == NUM_DIRECT
    witness Header(0, 0, seq(NUM_DIRECT, _ => 0))

  /** `divRoundUp(size, SectorSize)`. */
  function SectorsFor(size: nat): nat {
    size / SECTOR_SIZE + (if size % SECTOR_SIZE > 0 then 1 else 0)
  }

  function EncodeHeader(h: Header): Sector {
    EncodeInts([h.numBytes, h.numSectors] + h.dataSectors)
  }

  function DecodeHeader(s: Sector): Header {
    var ints := DecodeInts(s, 2 + NUM_DIRECT);
    Header(ints[0], ints[1], ints[2..])
  }

  lemma HeaderRoundTrip(h: Header)
    ensures DecodeHeader(EncodeHeader(h)) == h
  {
    IntsRoundTrip([h.numBytes, h.numSectors] + h.dataSectors);
  }

  predicate Within(s: seq<int>, n: int) {
    forall i | 0 <= i < |s| :: 0 <= s[i] < n
  }

  ghost function Elements(s: seq<int>): set<int> {
    set x | x in s
  }

  /** The data sectors the header really uses. */
  function Data(h: Header): (s: seq<Int32>)
    requires 0 <= h.numSectors <= NUM_DIRECT
  {
    h.dataSectors[..h.numSectors]
  }

  /** A header describes a file: its sectors are enough for its bytes, lie on
      the disk and are pairwise different. */
  predicate Good(h: Header) {
    && 0 <= h.numBytes <= MAX_FILE_SIZE
    && h.numSectors == SectorsFor(h.numBytes)
    && Within(Data(h), NUM_SECTORS)
    && Distinct(Data(h))
  }

  /** The sector that holds a byte of the file. */
  function ByteToSector(h: Header, offset: nat): (sector: int)
    requires Good(h) && offset < h.numSectors * SECTOR_SIZE
    ensures 0 <= sector < NUM_SECTORS && sector in Data(h)
  {
    assert h.dataSectors[offset / SECTOR_SIZE] == Data(h)[offset / SECTOR_SIZE];
    h.dataSectors[offset / SECTOR_SIZE]
  }

  /** Two bytes share a sector exactly if they lie in the same block of the file. */
  lemma SameSectorIff(h: Header, a: nat, b: nat)
    requires Good(h) && a < h.numSectors * SECTOR_SIZE && b < h.numSectors * SECTOR_SIZE
    ensures ByteToSector(h, a) == ByteToSector(h, b) <==> a / SECTOR_SIZE == b / SECTOR_SIZE
  {
    var i, j := a / SECTOR_SIZE, b / SECTOR_SIZE;
    assert Data(h)[i] == ByteToSector(h, a) && Data(h)[j] == ByteToSector(h, b);
  }

  // ---------- Taking sectors from the bitmap, and giving them back ----------

  datatype Allocation = Allocation(words: seq<Word>, sectors: seq<Int32>)

  lemma ClearBitLeft(ws: seq<Word>, n: nat)
    requires Covers(ws, n) && CountClear(ws, n) > 0
    ensures FirstClear(ws, n) >= 0
    ensures CountClear(Mark(ws, FirstClear(ws, n)), n) == CountClear(ws, n) - 1
  {
    var s := FirstClear(ws, n);
    CountClearIsComplement(ws, n);
    if s < 0 {
      AllMarked(ws, n);
    } else {
      MarkedMark(ws, n, s);
      CountClearIsComplement(Mark(ws, s), n);
    }
  }

  lemma {:induction false} AllMarked(ws: seq<Word>, n: nat)
    requires Covers(ws, n) && forall i | 0 <= i < n :: Test(ws, i)
    ensures CountClear(ws, n) == 0
  {
    if n > 0 { AllMarked(ws, n - 1); }
  }

  /** The least `k` clear bits, in the order `FindAndSet` finds them. */
  function Take(ws: seq<Word>, n: nat, k: nat): (a: Allocation)
    requires Covers(ws, n) && k <= CountClear(ws, n) && n <= 0x7fff_ffff
    ensures |a.words| == |ws| && |a.sectors| == k
    ensures CountClear(a.words, n) == CountClear(ws, n) - k
  {
    if k == 0 then Allocation(ws, [])
    else
      var a := Take(ws, n, k - 1);
      ClearBitLeft(a.words, n);
      var s := FirstClear(a.words, n);
      Allocation(Mark(a.words, s), a.sectors + [s])
  }

  lemma TakeNext(ws: seq<Word>, n: nat, k: nat)
    requires Covers(ws, n) && k < CountClear(ws, n) && n <= 0x7fff_ffff
    ensures var a, b, s := Take(ws, n, k), Take(ws, n, k + 1), FirstClear(Take(ws, n, k).words, n);
            s >= 0 && b.words == Mark(a.words, s) && b.sectors == a.sectors + [s]
  {
    ClearBitLeft(Take(ws, n, k).words, n);
  }

  lemma FillNext(filled: seq<Int32>, rest: seq<Int32>, s: Int32)
    requires |filled| < |rest|
    ensures (filled + rest[|filled|..])[|filled| := s] == filled + [s] + rest[|filled| + 1..]
  {
  }

  lemma {:induction false} TakeMarks(ws: seq<Word>, n: nat, k: nat)
    requires Covers(ws, n) && k <= CountClear(ws, n) && n <= 0x7fff_ffff
    ensures var a := Take(ws, n, k);
            && Marked(a.words, n) == Marked(ws, n) + Elements(a.sectors)
            && Marked(ws, n) !! Elements(a.sectors)
            && Distinct(a.sectors)
            && Within(a.sectors, n)
  {
    if k > 0 {
      TakeMarks(ws, n, k - 1);
      var a := Take(ws, n, k - 1);
      ClearBitLeft(a.words, n);
      var s := FirstClear(a.words, n);
      MarkedMark(a.words, n, s);
      OneMoreElement(Marked(ws, n), a.sectors, s, n);
    }
  }

  lemma OneMoreElement(marked: set<int>, sectors: seq<Int32>, s: Int32, n: nat)
    requires marked !! Elements(sectors) && Distinct(sectors) && Within(sectors, n)
    requires 0 <= s < n && s !in marked + Elements(sectors)
    ensures Elements(sectors + [s]) == Elements(sectors) + {s} && marked !! Elements(sectors + [s])
    ensures Distinct(sectors + [s]) && Within(sectors + [s], n)
  {
    assert forall i | 0 <= i < |sectors| :: sectors[i] in Elements(sectors);
  }

  function ClearAll(ws: seq<Word>, secs: seq<Int32>): (r: seq<Word>)
    requires Within(secs, BITS_IN_WORD * |ws|)
    ensures |r| == |ws|
  {
    if secs == [] then ws
    else Clear(ClearAll(ws, secs[..|secs| - 1]), secs[|secs| - 1])
  }

  lemma {:induction false} ClearAllUnmarks(ws: seq<Word>, n: nat, secs: seq<Int32>)
    requires Covers(ws, n) && Within(secs, n)
    ensures Marked(ClearAll(ws, secs), n) == Marked(ws, n) - Elements(secs)
  {
    if secs != [] {
      var front, s := secs[..|secs| - 1], secs[|secs| - 1];
      ClearAllUnmarks(ws, n, front);
      MarkedClear(ClearAll(ws, front), n, s);
      assert secs == front + [s];
      assert Elements(secs) == Elements(front) + {s};
    }
  }

  // ---------- The class ----------

  class FileHeader {
    var numBytes: Int32
    var numSectors: Int32
    const dataSectors: array<Int32>

    ghost predicate Valid() {
      dataSectors.Length == NUM_DIRECT
    }

    function Value(): Header
      requires Valid()
      reads this, dataSectors
    {
      Header(numBytes, numSectors, dataSectors[..])
    }

    constructor ()
      ensures Valid() && fresh(dataSectors)
      ensures Value() == Header(-1, -1, seq(NUM_DIRECT, _ => -1))
    {
      numBytes := -1;
      numSectors := -1;
      dataSectors := new Int32[NUM_DIRECT](_ => -1);
    }

    /** Takes the least free sectors, or nothing at all. */
    method Allocate(freeMap: Bitmap, fileSize: nat) returns (ok: bool)
      requires Valid() && freeMap.Valid() && fileSize <= MAX_FILE_SIZE
      requires freeMap.numBits <= 0x7fff_ffff
      modifies this, dataSectors, freeMap.words
      ensures ok <==> SectorsFor(fileSize) <= CountClear(old(freeMap.words[..]), freeMap.numBits)
      ensures !ok ==> freeMap.words[..] == old(freeMap.words[..])
      ensures ok ==>
        var a := Take(old(freeMap.words[..]), freeMap.numBits, SectorsFor(fileSize));
        && freeMap.words[..] == a.words
        && Value() == Header(fileSize, SectorsFor(fileSize),
                             a.sectors + old(dataSectors[..])[SectorsFor(fileSize)..])
    {
      numBytes := fileSize;
      numSectors := fileSize / SECTOR_SIZE + (if fileSize % SECTOR_SIZE > 0 then 1 else 0);
      var free := freeMap.NumClear();
      if free < numSectors {
        return false;
      }
      TakeSectors(freeMap);
      return true;
    }

    /** The allocation loop.  Its assertion never fails: `NumClear` has counted
        enough free sectors. */
    method TakeSectors(freeMap: Bitmap)
      requires Valid() && freeMap.Valid() && freeMap.numBits <= 0x7fff_ffff
      requires 0 <= numSectors <= NUM_DIRECT
      requires numSectors <= CountClear(freeMap.words[..], freeMap.numBits)
      modifies dataSectors, freeMap.words
      ensures freeMap.words[..] == Take(old(freeMap.words[..]), freeMap.numBits, numSectors).words
      ensures dataSectors[..] == Take(old(freeMap.words[..]), freeMap.numBits, numSectors).sectors
                                 + old(dataSectors[..])[numSectors..]
    {
      ghost var ws, n := freeMap.words[..], freeMap.numBits;
      ghost var rest := dataSectors[..];
      var i := 0;
      while i < numSectors
        invariant 0 <= i <= numSectors
        invariant freeMap.words[..] == Take(ws, n, i).words
        invariant dataSectors[..] == Take(ws, n, i).sectors + rest[i..]
      {
        TakeNext(ws, n, i);
        FillNext(Take(ws, n, i).sectors, rest, FirstClear(Take(ws, n, i).words, n));
        TakeSector(freeMap, i);
        i := i + 1;
      }
    }

    method TakeSector(freeMap: Bitmap, i: nat)
      requires Valid() && freeMap.Valid() && freeMap.numBits <= 0x7fff_ffff
      requires i < NUM_DIRECT && FirstClear(freeMap.words[..], freeMap.numBits) >= 0
      modifies dataSectors, freeMap.words
      ensures var s := FirstClear(old(freeMap.words[..]), freeMap.numBits);
              && freeMap.words[..] == Mark(old(freeMap.words[..]), s)
              && dataSectors[..] == old(dataSectors[..])[i := s]
    {
      var s: int := freeMap.FindAndSet();
      assert s >= 0;
      dataSectors[i] := s;
    }

    /** Gives every data sector back; each is marked when its turn comes. */
    method Deallocate(freeMap: Bitmap)
      requires Valid() && freeMap.Valid() && Good(Value())
      requires freeMap.numBits == NUM_SECTORS
      requires forall j | 0 <= j < numSectors :: Test(freeMap.words[..], Data(Value())[j])
      modifies freeMap.words
      ensures freeMap.words[..] == ClearAll(old(freeMap.words[..]), Data(Value()))
    {
      ghost var ws, secs := freeMap.words[..], Data(Value());
      var i := 0;
      while i < numSectors
        invariant 0 <= i <= numSectors
        invariant freeMap.words[..] == ClearAll(ws, secs[..i])
        invariant forall j | i <= j < numSectors :: Test(freeMap.words[..], secs[j])
      {
        var t := freeMap.TestBit(dataSectors[i]);
        assert t;
        ghost var before := freeMap.words[..];
        freeMap.ClearBit(dataSectors[i]);
        forall j | i < j < numSectors
          ensures Test(freeMap.words[..], secs[j])
        {
          TestClear(before, secs[i], secs[j]);
        }
        assert secs[..i + 1][..i] == secs[..i];
        i := i + 1;
      }
      assert secs[..i] == secs;
    }

    method FetchFrom(disk: SynchDisk, sector: int)
      requires Valid() && 0 <= sector < NUM_SECTORS
      modifies this, dataSectors
      ensures Value() == DecodeHeader(disk.sectors[sector])
    {
      var s := disk.ReadSector(sector);
      var h := DecodeHeader(s);
      numBytes, numSectors := h.numBytes, h.numSectors;
      forall i | 0 <= i < NUM_DIRECT {
        dataSectors[i] := h.dataSectors[i];
      }
      assert dataSectors[..] == h.dataSectors;
    }

    method WriteBack(disk: SynchDisk, sector: int)
      requires Valid() && 0 <= sector < NUM_SECTORS
      modifies disk
      ensures disk.sectors == old(disk.sectors)[sector := EncodeHeader(Value())]
    {
      disk.WriteSector(sector, EncodeHeader(Header(numBytes, numSectors, dataSectors[..])));
    }
  }
}
