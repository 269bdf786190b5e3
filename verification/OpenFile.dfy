/** Open files (filesys/openfile.cc): byte ranges read and written through
    whole-sector transfers. */
module OpenFiles {
  import opened Bytes
  import opened SectorDisk
  import opened FileHeaders
  import opened Sequences

  // ---------- The contents of a file, and what a write does to the disk ----------

  /** Byte `k` of the file's data sectors, laid end to end. */
  function RawByte(d: DiskImage, h: Header, k: nat): Byte
    requires Good(h) && k < h.numSectors * SECTOR_SIZE
  {
    d[Data(h)[k / SECTOR_SIZE]][k % SECTOR_SIZE]
  }

  function FileBytes(d: DiskImage, h: Header): (f: seq<Byte>)
    requires Good(h)
    ensures |f| == h.numBytes
  {
    seq(h.numBytes, k requires 0 <= k < h.numBytes => RawByte(d, h, k))
  }

  /** How many of `n` bytes at `pos` lie inside a file of length `len`. */
  function Clip(len: nat, n: int, pos: nat): (c: nat)
    ensures c > 0 ==> pos + c <= len && c <= n
  {
    if n <= 0 || pos >= len then 0
    else if pos + n > len then len - pos
    else n
  }

  function Replace<T>(f: seq<T>, pos: nat, data: seq<T>): (r: seq<T>)
    requires pos + |data| <= |f|
    ensures |r| == |f|
  {
    seq(|f|, k requires 0 <= k < |f| => if pos <= k < pos + |data| then data[k - pos] else f[k])
  }

  /** The `n` bytes of `f` from `base` on, padded with zeros past its end. */
  function Window(f: seq<Byte>, base: nat, n: nat): (w: seq<Byte>)
    ensures |w| == n
  {
    seq(n, k requires 0 <= k < n => if base + k < |f| then f[base + k] else 0)
  }

  /** A buffer after a file with contents `f` is read into it from the start: what
      the file does not cover stays. */
  function Overlay(buf: seq<Byte>, f: seq<Byte>): (r: seq<Byte>)
    ensures |r| == |buf|
    ensures |f| == |buf| ==> r == f
  {
    seq(|buf|, k requires 0 <= k < |buf| => if k < |f| then f[k] else buf[k])
  }

  /** Sector `i` of file contents `f`. */
  function Chunk(f: seq<Byte>, i: nat): Sector {
    Window(f, i * SECTOR_SIZE, SECTOR_SIZE)
  }

  /** The disk once data sectors `lo..hi` of the file hold chunks of `f`. */
  function Store(d: DiskImage, h: Header, f: seq<Byte>, lo: nat, hi: nat): DiskImage
    requires Good(h) && lo <= hi <= h.numSectors
  {
    if lo == hi then d
    else Store(d, h, f, lo, hi - 1)[Data(h)[hi - 1] := Chunk(f, hi - 1)]
  }

  /** The disk after `data` is written at `pos`, inside the file. */
  function WriteImage(d: DiskImage, h: Header, pos: nat, data: seq<Byte>): DiskImage
    requires Good(h) && pos + |data| <= h.numBytes
  {
    if data == [] then d
    else Store(d, h, Replace(FileBytes(d, h), pos, data),
               pos / SECTOR_SIZE, (pos + |data| - 1) / SECTOR_SIZE + 1)
  }

  /** The disk after a call that asks for `data` to be written at `pos`. */
  function WriteCall(d: DiskImage, h: Header, pos: nat, data: seq<Byte>): DiskImage
    requires Good(h)
  {
    var n := Clip(h.numBytes, |data|, pos);
    if n == 0 then d else WriteImage(d, h, pos, data[..n])
  }

  lemma {:induction false} StoreSectors(d: DiskImage, h: Header, f: seq<Byte>, lo: nat, hi: nat)
    requires Good(h) && lo <= hi <= h.numSectors
    ensures forall i | lo <= i < hi :: Store(d, h, f, lo, hi)[Data(h)[i]] == Chunk(f, i)
    ensures forall i | 0 <= i < lo :: Store(d, h, f, lo, hi)[Data(h)[i]] == d[Data(h)[i]]
    ensures forall i | hi <= i < h.numSectors :: Store(d, h, f, lo, hi)[Data(h)[i]] == d[Data(h)[i]]
    ensures forall s | 0 <= s < NUM_SECTORS && s !in Data(h) :: Store(d, h, f, lo, hi)[s] == d[s]
  {
    if lo < hi {
      StoreSectors(d, h, f, lo, hi - 1);
      assert Data(h)[hi - 1] in Data(h);
    }
  }

  /** A write replaces exactly the bytes it covers; outside the file's own data
      sectors no byte of the disk changes. */
  lemma WriteReplaces(d: DiskImage, h: Header, pos: nat, data: seq<Byte>)
    requires Good(h) && pos + |data| <= h.numBytes
    ensures FileBytes(WriteImage(d, h, pos, data), h) == Replace(FileBytes(d, h), pos, data)
    ensures forall s | 0 <= s < NUM_SECTORS && s !in Data(h) ::
              WriteImage(d, h, pos, data)[s] == d[s]
  {
    if data != [] {
      var f := Replace(FileBytes(d, h), pos, data);
      var lo, hi := pos / SECTOR_SIZE, (pos + |data| - 1) / SECTOR_SIZE + 1;
      var d' := WriteImage(d, h, pos, data);
      StoreSectors(d, h, f, lo, hi);
      forall k | 0 <= k < h.numBytes
        ensures RawByte(d', h, k) == f[k]
      {
        var i := k / SECTOR_SIZE;
        if lo <= i < hi {
          assert d'[Data(h)[i]] == Chunk(f, i);
        } else {
          assert d'[Data(h)[i]] == d[Data(h)[i]];
          assert f[k] == FileBytes(d, h)[k];
        }
      }
    }
  }

  lemma CallReplaces(d: DiskImage, h: Header, pos: nat, data: seq<Byte>)
    requires Good(h) && pos <= h.numBytes
    ensures FileBytes(WriteCall(d, h, pos, data), h)
            == Replace(FileBytes(d, h), pos, data[..Clip(h.numBytes, |data|, pos)])
    ensures forall s | 0 <= s < NUM_SECTORS && s !in Data(h) :: WriteCall(d, h, pos, data)[s] == d[s]
  {
    var n := Clip(h.numBytes, |data|, pos);
    if n == 0 {
      assert Replace(FileBytes(d, h), pos, data[..n]) == FileBytes(d, h);
    } else {
      WriteReplaces(d, h, pos, data[..n]);
    }
  }

  lemma SameSectorsSameBytes(d: DiskImage, d': DiskImage, h: Header)
    requires Good(h)
    requires forall i | 0 <= i < h.numSectors :: d'[Data(h)[i]] == d[Data(h)[i]]
    ensures FileBytes(d', h) == FileBytes(d, h)
  {
  }

  // ---------- Sequences of calls ----------

  /** The disk after successive `Write` calls, starting at `pos`: each call
      writes what fits and advances the position by that much. */
  function WriteChunks(d: DiskImage, h: Header, pos: nat, chunks: seq<seq<Byte>>): DiskImage
    requires Good(h)
    decreases |chunks|
  {
    if chunks == [] then d
    else WriteChunks(WriteCall(d, h, pos, chunks[0]), h,
                     pos + Clip(h.numBytes, |chunks[0]|, pos), chunks[1..])
  }

  /** The bytes that successive `Read` calls of the given sizes return. */
  function ReadChunks(f: seq<Byte>, pos: nat, sizes: seq<int>): seq<Byte>
    decreases |sizes|
  {
    if sizes == [] then []
    else
      var n := Clip(|f|, sizes[0], pos);
      (if n == 0 then [] else f[pos..pos + n]) + ReadChunks(f, pos + n, sizes[1..])
  }

  function Sum(sizes: seq<int>): int {
    if sizes == [] then 0 else (if sizes[0] > 0 then sizes[0] else 0) + Sum(sizes[1..])
  }

  lemma {:induction false} FlattenHead(chunks: seq<seq<Byte>>, i: nat)
    requires chunks != [] && i < |Flatten(chunks)|
    ensures Flatten(chunks)[i] == if i < |chunks[0]| then chunks[0][i] else Flatten(chunks[1..])[i - |chunks[0]|]
  {
  }

  /** The same calls, on the contents of a file. */
  function Overwrite(f: seq<Byte>, pos: nat, chunks: seq<seq<Byte>>): (r: seq<Byte>)
    requires pos <= |f|
    ensures |r| == |f|
    decreases |chunks|
  {
    if chunks == [] then f
    else
      var n := Clip(|f|, |chunks[0]|, pos);
      Overwrite(Replace(f, pos, chunks[0][..n]), pos + n, chunks[1..])
  }

  lemma {:induction false} ChunksOverwrite(d: DiskImage, h: Header, pos: nat, chunks: seq<seq<Byte>>, d': DiskImage)
    requires Good(h) && pos <= h.numBytes && d' == WriteChunks(d, h, pos, chunks)
    ensures FileBytes(d', h) == Overwrite(FileBytes(d, h), pos, chunks)
    decreases |chunks|
  {
    if chunks != [] {
      var d1 := WriteCall(d, h, pos, chunks[0]);
      var n := Clip(h.numBytes, |chunks[0]|, pos);
      assert FileBytes(d1, h) == Replace(FileBytes(d, h), pos, chunks[0][..n]) by {
        CallReplaces(d, h, pos, chunks[0]);
      }
      ChunksOverwrite(d1, h, pos + n, chunks[1..], d');
      OverwriteNext(FileBytes(d, h), FileBytes(d1, h), pos, n, chunks);
    }
  }

  lemma OverwriteNext(f: seq<Byte>, f1: seq<Byte>, pos: nat, n: nat, chunks: seq<seq<Byte>>)
    requires pos <= |f| && chunks != [] && n == Clip(|f|, |chunks[0]|, pos) && f1 == Replace(f, pos, chunks[0][..n])
    ensures Overwrite(f, pos, chunks) == Overwrite(f1, pos + n, chunks[1..])
  {
  }

  lemma {:induction false} OverwriteAt(f: seq<Byte>, pos: nat, chunks: seq<seq<Byte>>, k: nat)
    requires pos <= |f| && k < |f|
    ensures Overwrite(f, pos, chunks)[k]
            == if pos <= k < pos + |Flatten(chunks)| then Flatten(chunks)[k - pos] else f[k]
    decreases |chunks|
  {
    if chunks != [] {
      var n := Clip(|f|, |chunks[0]|, pos);
      OverwriteAt(Replace(f, pos, chunks[0][..n]), pos + n, chunks[1..], k);
      if pos <= k < pos + |Flatten(chunks)| { FlattenHead(chunks, k - pos); }
    }
  }

  lemma {:induction false} ChunksElsewhere(d: DiskImage, h: Header, pos: nat, chunks: seq<seq<Byte>>, s: nat,
                                           d': DiskImage)
    requires Good(h) && pos <= h.numBytes && s < NUM_SECTORS && s !in Data(h)
    requires d' == WriteChunks(d, h, pos, chunks)
    ensures d'[s] == d[s]
    decreases |chunks|
  {
    if chunks != [] {
      var d1 := WriteCall(d, h, pos, chunks[0]);
      assert d1[s] == d[s] by { CallReplaces(d, h, pos, chunks[0]); }
      ChunksElsewhere(d1, h, pos + Clip(h.numBytes, |chunks[0]|, pos), chunks[1..], s, d');
    }
  }

  /** Writing in chunks is one write of all the bytes, clipped at the end of
      the file, and leaves every sector of the disk that is not one of the
      file's own as it was. */
  lemma ChunkedWrite(d: DiskImage, h: Header, pos: nat, chunks: seq<seq<Byte>>)
    requires Good(h) && pos <= h.numBytes
    ensures forall s | 0 <= s < NUM_SECTORS && s !in Data(h) :: WriteChunks(d, h, pos, chunks)[s] == d[s]
    ensures FileBytes(WriteChunks(d, h, pos, chunks), h)
            == Replace(FileBytes(d, h), pos, Flatten(chunks)[..Clip(h.numBytes, |Flatten(chunks)|, pos)])
  {
    var d' := WriteChunks(d, h, pos, chunks);
    forall s | 0 <= s < NUM_SECTORS && s !in Data(h) ensures d'[s] == d[s] {
      ChunksElsewhere(d, h, pos, chunks, s, d');
    }
    ChunksOverwrite(d, h, pos, chunks, d');
    var f := FileBytes(d, h);
    forall k | 0 <= k < |f|
      ensures Overwrite(f, pos, chunks)[k]
              == if pos <= k < pos + |Flatten(chunks)| then Flatten(chunks)[k - pos] else f[k]
    {
      OverwriteAt(f, pos, chunks, k);
    }
  }

  lemma ClipSplits(len: nat, n: int, m: nat, pos: nat)
    requires pos <= len
    ensures var c := Clip(len, n, pos);
            pos + c <= len && c + Clip(len, m, pos + c) == Clip(len, (if n > 0 then n else 0) + m, pos)
  {
  }

  lemma ReadJoin(f: seq<Byte>, pos: nat, n: nat, c: nat)
    requires n <= c && pos + c <= |f|
    ensures (if n == 0 then [] else f[pos..pos + n]) + f[pos + n..pos + c] == f[pos..pos + c]
  {
  }

  /** Reading in chunks is one read of the whole range, clipped. */
  lemma {:induction false} ChunkedRead(f: seq<Byte>, pos: nat, sizes: seq<int>, r: seq<Byte>, total: int)
    requires pos <= |f| && r == ReadChunks(f, pos, sizes) && total == Sum(sizes)
    ensures pos + Clip(|f|, total, pos) <= |f| && r == f[pos..pos + Clip(|f|, total, pos)]
    decreases |sizes|
  {
    if sizes != [] {
      var n, rest := Clip(|f|, sizes[0], pos), Sum(sizes[1..]);
      SumNonNegative(sizes[1..]);
      ClipSplits(|f|, sizes[0], rest, pos);
      ChunkedRead(f, pos + n, sizes[1..], ReadChunks(f, pos + n, sizes[1..]), rest);
      ReadJoin(f, pos, n, Clip(|f|, total, pos));
    }
  }

  lemma {:induction false} SumNonNegative(sizes: seq<int>)
    ensures Sum(sizes) >= 0
  {
    if sizes != [] { SumNonNegative(sizes[1..]); }
  }

  /** Past the end of the file nothing is written and nothing is read. */
  lemma {:induction false} PastTheEnd(d: DiskImage, h: Header, pos: nat, chunks: seq<seq<Byte>>, sizes: seq<int>)
    requires Good(h) && pos >= h.numBytes
    ensures WriteChunks(d, h, pos, chunks) == d && ReadChunks(FileBytes(d, h), pos, sizes) == []
    decreases |chunks| + |sizes|
  {
    if chunks != [] {
      PastTheEnd(d, h, pos, chunks[1..], sizes);
    } else if sizes != [] {
      PastTheEnd(d, h, pos, chunks, sizes[1..]);
    }
  }

  /** Whatever the two chunkings and their total lengths, what is read back is the
      bytes written, as far as they fit into the file, and then what was there. */
  lemma ChunkedRoundTrip(d: DiskImage, h: Header, pos: nat, chunks: seq<seq<Byte>>, sizes: seq<int>)
    requires Good(h)
    ensures var all := Flatten(chunks);
            var written, count := Clip(h.numBytes, |all|, pos), Clip(h.numBytes, Sum(sizes), pos);
            var got := ReadChunks(FileBytes(WriteChunks(d, h, pos, chunks), h), pos, sizes);
            && |got| == count
            && (forall i | 0 <= i < count :: got[i] == if i < written then all[i] else FileBytes(d, h)[pos + i])
  {
    if pos >= h.numBytes {
      PastTheEnd(d, h, pos, chunks, sizes);
    } else {
      var f := FileBytes(WriteChunks(d, h, pos, chunks), h);
      ChunkedRead(f, pos, sizes, ReadChunks(f, pos, sizes), Sum(sizes));
      ChunkedWrite(d, h, pos, chunks);
    }
  }

  // ---------- The buffer of a write ----------

  lemma WindowSlice(f: seq<Byte>, base: nat, n: nat, at: nat, m: nat)
    requires at + m <= n
    ensures Window(f, base, n)[at..at + m] == Window(f, base + at, m)
  {
  }

  /** What a one-sector read at `p` delivers. */
  function OneSector(f: seq<Byte>, p: nat): (s: seq<Byte>)
    requires p < |f|
  {
    f[p..if p + SECTOR_SIZE <= |f| then p + SECTOR_SIZE else |f|]
  }

  /** Reading a sector into a buffer that starts at file offset `base`. */
  lemma AfterRead(f: seq<Byte>, b: seq<Byte>, base: nat, p: nat, k: nat)
    requires base <= p < |f| && p - base + SECTOR_SIZE <= |b| && k < |b|
    ensures Replace(b, p - base, OneSector(f, p))[k]
            == if p <= base + k < p + SECTOR_SIZE && base + k < |f| then f[base + k] else b[k]
  {
  }

  lemma FilledAt(f: seq<Byte>, data: seq<Byte>, position: nat, base: nat, tail: nat,
               b0: seq<Byte>, b1: seq<Byte>, b2: seq<Byte>, k: nat)
    requires position + |data| <= |f|
    requires base <= position < base + SECTOR_SIZE
    requires tail < position + |data| <= tail + SECTOR_SIZE
    requires base == tail || base + SECTOR_SIZE <= tail
    requires |b0| == tail + SECTOR_SIZE - base && forall k | 0 <= k < |b0| :: b0[k] == 0
    requires b1 == if position == base then b0 else Replace(b0, 0, OneSector(f, base))
    requires b2 == if position + |data| != tail + SECTOR_SIZE && (base != tail || position == base)
                   then Replace(b1, tail - base, OneSector(f, tail)) else b1
    requires k < |b0|
    ensures Replace(b2, position - base, data)[k] == Window(Replace(f, position, data), base, |b0|)[k]
  {
    assert b1[k] == if position != base && k < SECTOR_SIZE && base + k < |f| then f[base + k] else 0 by {
      if position != base { AfterRead(f, b0, base, base, k); }
    }
    var last := position + |data| != tail + SECTOR_SIZE && (base != tail || position == base);
    assert b2[k] == if last && tail <= base + k && base + k < |f| then f[base + k] else b1[k] by {
      if last { AfterRead(f, b1, base, tail, k); }
    }
    WriteOver(f, data, position, base, b2, k);
  }

  lemma WriteOver(f: seq<Byte>, data: seq<Byte>, position: nat, base: nat, b: seq<Byte>, k: nat)
    requires base <= position && position + |data| <= |f| && position - base + |data| <= |b| && k < |b|
    ensures Replace(b, position - base, data)[k]
         == if position <= base + k < position + |data| then data[base + k - position] else b[k]
    ensures Window(Replace(f, position, data), base, |b|)[k]
         == if position <= base + k < position + |data| then data[base + k - position]
            else if base + k < |f| then f[base + k] else 0
  {
  }

  /** The write of `n` bytes at `position` touches the sectors from `base` to
      `tail`, and a buffer for all of them has `size` bytes. */
  predicate Spans(position: nat, n: nat, base: nat, tail: nat, size: int) {
    && base <= position < base + SECTOR_SIZE
    && tail < position + n <= tail + SECTOR_SIZE
    && (base == tail || base + SECTOR_SIZE <= tail)
    && size == tail + SECTOR_SIZE - base
  }

  /** The buffer `b` once the first of those sectors is read into it, if it is not
      fully overwritten. */
  function FirstRead(f: seq<Byte>, b: seq<Byte>, position: nat, n: nat, base: nat, tail: nat): (b1: seq<Byte>)
    requires Spans(position, n, base, tail, |b|) && position + n <= |f|
    ensures |b1| == |b|
  {
    if position == base then b else Replace(b, 0, OneSector(f, base))
  }

  /** The same for the last. */
  function LastRead(f: seq<Byte>, b: seq<Byte>, position: nat, n: nat, base: nat, tail: nat): (b2: seq<Byte>)
    requires Spans(position, n, base, tail, |b|) && position + n <= |f|
    ensures |b2| == |b|
  {
    if position + n != tail + SECTOR_SIZE && (base != tail || position == base)
    then Replace(b, tail - base, OneSector(f, tail)) else b
  }

  /** The buffer `b0` once the first and the last of those sectors are read into
      it, each where it is not fully overwritten. */
  function EdgesRead(f: seq<Byte>, b0: seq<Byte>, position: nat, n: nat, base: nat, tail: nat): (b2: seq<Byte>)
    requires Spans(position, n, base, tail, |b0|) && position + n <= |f|
    ensures |b2| == |b0|
  {
    LastRead(f, FirstRead(f, b0, position, n, base, tail), position, n, base, tail)
  }

  /** Reading the first sector (at `base`) and the last (at `tail`) only where
      they are not fully overwritten is enough for the buffer to show the new
      file contents. */
  lemma Filled(f: seq<Byte>, data: seq<Byte>, position: nat, base: nat, tail: nat, b0: seq<Byte>)
    requires position + |data| <= |f| && Spans(position, |data|, base, tail, |b0|)
    requires forall k | 0 <= k < |b0| :: b0[k] == 0
    ensures Replace(EdgesRead(f, b0, position, |data|, base, tail), position - base, data)
         == Window(Replace(f, position, data), base, |b0|)
  {
    var b1 := FirstRead(f, b0, position, |data|, base, tail);
    var b2 := EdgesRead(f, b0, position, |data|, base, tail);
    forall k | 0 <= k < |b0|
      ensures Replace(b2, position - base, data)[k] == Window(Replace(f, position, data), base, |b0|)[k]
    { FilledAt(f, data, position, base, tail, b0, b1, b2, k); }
  }

  lemma SectorBounds(position: nat, n: nat, base: nat, tail: nat)
    requires n > 0
    requires base == position / SECTOR_SIZE * SECTOR_SIZE && tail == (position + n - 1) / SECTOR_SIZE * SECTOR_SIZE
    ensures Spans(position, n, base, tail, tail + SECTOR_SIZE - base)
  {
  }

  // ---------- The class ----------

  /** `bcopy` into the middle of a buffer. */
  method Bcopy(data: seq<Byte>, dst: array<Byte>, at: nat)
    requires at + |data| <= dst.Length
    modifies dst
    ensures dst[..] == Replace(old(dst[..]), at, data)
  {
    forall k | 0 <= k < |data| {
      dst[at + k] := data[k];
    }
    assert dst[..] == Replace(old(dst[..]), at, data);
  }

  class OpenFile {
    const disk: SynchDisk
    const hdr: Header
    var seekPosition: int

    /** Brings the header at `sector` into memory. */
    constructor (disk: SynchDisk, sector: int)
      requires 0 <= sector < NUM_SECTORS
      ensures this.disk == disk && hdr == DecodeHeader(disk.sectors[sector]) && seekPosition == 0
    {
      this.disk := disk;
      var header := new FileHeader();
      header.FetchFrom(disk, sector);
      hdr := header.Value();
      seekPosition := 0;
    }

    method Seek(position: int)
      modifies this
      ensures seekPosition == position
    {
      seekPosition := position;
    }

    /** Copies the requested bytes that exist into the buffer at `at`. */
    method ReadAt(into: array<Byte>, at: nat, numBytes: int, position: nat) returns (count: nat)
      requires Good(hdr)
      requires at + Clip(hdr.numBytes, numBytes, position) <= into.Length
      modifies into
      ensures count == Clip(hdr.numBytes, numBytes, position)
      ensures count == 0 ==> into[..] == old(into[..])
      ensures count > 0 ==>
        into[..] == Replace(old(into[..]), at, FileBytes(disk.sectors, hdr)[position..position + count])
    {
      if numBytes <= 0 || position >= hdr.numBytes {
        return 0;
      }
      count := if position + numBytes > hdr.numBytes then hdr.numBytes - position else numBytes;
      var firstSector := position / SECTOR_SIZE;
      var lastSector := (position + count - 1) / SECTOR_SIZE;
      var buf := ReadSectors(firstSector, lastSector);
      var start := position - firstSector * SECTOR_SIZE;
      assert buf[start..start + count] == FileBytes(disk.sectors, hdr)[position..position + count];
      Bcopy(buf[start..start + count], into, at);
    }

    /** Reads all the full and partial sectors of a request into one buffer. */
    method ReadSectors(first: nat, last: nat) returns (buf: array<Byte>)
      requires Good(hdr) && first <= last < hdr.numSectors
      ensures fresh(buf) && buf.Length == (1 + last - first) * SECTOR_SIZE
      ensures forall k | first * SECTOR_SIZE <= k < (last + 1) * SECTOR_SIZE ::
                buf[k - first * SECTOR_SIZE] == RawByte(disk.sectors, hdr, k)
    {
      buf := new Byte[(1 + last - first) * SECTOR_SIZE];
      var i := first;
      while i <= last
        invariant first <= i <= last + 1
        invariant forall k | first * SECTOR_SIZE <= k < i * SECTOR_SIZE ::
                    buf[k - first * SECTOR_SIZE] == RawByte(disk.sectors, hdr, k)
      {
        var s := disk.ReadSector(ByteToSector(hdr, i * SECTOR_SIZE));
        Bcopy(s, buf, (i - first) * SECTOR_SIZE);
        i := i + 1;
      }
    }

    /** Writes the given bytes that fit, keeping every other byte of the file:
        sectors written only in part are read first. */
    method WriteAt(from: seq<Byte>, position: nat) returns (count: nat)
      requires Good(hdr)
      modifies disk
      ensures count == Clip(hdr.numBytes, |from|, position)
      ensures disk.sectors == WriteCall(old(disk.sectors), hdr, position, from)
    {
      if |from| <= 0 || position >= hdr.numBytes {
        return 0;
      }
      count := if position + |from| > hdr.numBytes then hdr.numBytes - position else |from|;
      var firstSector := position / SECTOR_SIZE;
      var lastSector := (position + count - 1) / SECTOR_SIZE;
      ghost var f := Replace(FileBytes(disk.sectors, hdr), position, from[..count]);
      var buf := FillBuffer(from[..count], position, firstSector, lastSector);
      WriteSectors(buf, firstSector, lastSector, f);
    }

    method WriteSectors(buf: array<Byte>, first: nat, last: nat, ghost f: seq<Byte>)
      requires Good(hdr) && first <= last < hdr.numSectors
      requires buf[..] == Window(f, first * SECTOR_SIZE, (1 + last - first) * SECTOR_SIZE)
      modifies disk
      ensures disk.sectors == Store(old(disk.sectors), hdr, f, first, last + 1)
    {
      var i := first;
      while i <= last
        invariant first <= i <= last + 1
        invariant disk.sectors == Store(old(disk.sectors), hdr, f, first, i)
      {
        var at := (i - first) * SECTOR_SIZE;
        WindowSlice(f, first * SECTOR_SIZE, buf.Length, at, SECTOR_SIZE);
        assert buf[at..at + SECTOR_SIZE] == buf[..][at..at + SECTOR_SIZE];
        disk.WriteSector(ByteToSector(hdr, i * SECTOR_SIZE), buf[at..at + SECTOR_SIZE]);
        assert ByteToSector(hdr, i * SECTOR_SIZE) == Data(hdr)[i];
        i := i + 1;
      }
    }

    /** Reads the sector of the file that starts at byte `p` into the buffer. */
    method ReadOneSector(buf: array<Byte>, at: nat, p: nat)
      requires Good(hdr) && p < hdr.numBytes && at + SECTOR_SIZE <= buf.Length
      modifies buf
      ensures buf[..] == Replace(old(buf[..]), at, OneSector(FileBytes(disk.sectors, hdr), p))
    {
      var _ := ReadAt(buf, at, SECTOR_SIZE, p);
    }

    /** The buffer a write sends to the disk: the new bytes, the bytes the file
        already has around them in the first and last sector, and zeros past
        the end of the file. */
    method FillBuffer(data: seq<Byte>, position: nat, first: nat, last: nat) returns (buf: array<Byte>)
      requires Good(hdr) && data != [] && position + |data| <= hdr.numBytes
      requires first == position / SECTOR_SIZE && last == (position + |data| - 1) / SECTOR_SIZE
      ensures fresh(buf) && buf.Length == (1 + last - first) * SECTOR_SIZE
      ensures buf[..] == Window(Replace(FileBytes(disk.sectors, hdr), position, data),
                                first * SECTOR_SIZE, buf.Length)
    {
      SectorBounds(position, |data|, first * SECTOR_SIZE, last * SECTOR_SIZE);
      buf := FillSpan(data, position, first * SECTOR_SIZE, last * SECTOR_SIZE);
    }

    method FillSpan(data: seq<Byte>, position: nat, base: nat, tail: nat) returns (buf: array<Byte>)
      requires Good(hdr) && position + |data| <= hdr.numBytes
      requires Spans(position, |data|, base, tail, tail + SECTOR_SIZE - base)
      ensures fresh(buf) && buf.Length == tail + SECTOR_SIZE - base
      ensures buf[..] == Window(Replace(FileBytes(disk.sectors, hdr), position, data), base, buf.Length)
    {
      buf := new Byte[tail + SECTOR_SIZE - base](_ => 0);
      Filled(FileBytes(disk.sectors, hdr), data, position, base, tail, buf[..]);
      ReadEdges(buf, |data|, position, base, tail);
      Bcopy(data, buf, position - base);
    }

    /** Reads the first and the last sector where they are not fully overwritten. */
    method ReadEdges(buf: array<Byte>, n: nat, position: nat, base: nat, tail: nat)
      requires Good(hdr) && position + n <= hdr.numBytes && Spans(position, n, base, tail, buf.Length)
      modifies buf
      ensures buf[..] == EdgesRead(FileBytes(disk.sectors, hdr), old(buf[..]), position, n, base, tail)
    {
      ReadFirst(buf, n, position, base, tail);
      ReadLast(buf, n, position, base, tail);
    }

    method ReadFirst(buf: array<Byte>, n: nat, position: nat, base: nat, tail: nat)
      requires Good(hdr) && position + n <= hdr.numBytes && Spans(position, n, base, tail, buf.Length)
      modifies buf
      ensures buf[..] == FirstRead(FileBytes(disk.sectors, hdr), old(buf[..]), position, n, base, tail)
    {
      var firstAligned := position == base;
      if !firstAligned { ReadOneSector(buf, 0, base); }
    }

    method ReadLast(buf: array<Byte>, n: nat, position: nat, base: nat, tail: nat)
      requires Good(hdr) && position + n <= hdr.numBytes && Spans(position, n, base, tail, buf.Length)
      modifies buf
      ensures buf[..] == LastRead(FileBytes(disk.sectors, hdr), old(buf[..]), position, n, base, tail)
    {
      var firstAligned, lastAligned := position == base, position + n == tail + SECTOR_SIZE;
      if !lastAligned && (base != tail || firstAligned) { ReadOneSector(buf, tail - base, tail); }
    }

    method Read(into: array<Byte>, numBytes: int) returns (count: nat)
      requires Good(hdr) && seekPosition >= 0
      requires Clip(hdr.numBytes, numBytes, seekPosition) <= into.Length
      modifies this, into
      ensures count == Clip(hdr.numBytes, numBytes, old(seekPosition))
      ensures seekPosition == old(seekPosition) + count
      ensures count > 0 ==> into[..count] == FileBytes(disk.sectors, hdr)[old(seekPosition)..seekPosition]
      ensures into[count..] == old(into[..])[count..]
    {
      count := ReadAt(into, 0, numBytes, seekPosition);
      seekPosition := seekPosition + count;
    }

    method Write(from: seq<Byte>) returns (count: nat)
      requires Good(hdr) && seekPosition >= 0
      modifies this, disk
      ensures count == Clip(hdr.numBytes, |from|, old(seekPosition))
      ensures seekPosition == old(seekPosition) + count
      ensures disk.sectors == WriteCall(old(disk.sectors), hdr, old(seekPosition), from)
    {
      count := WriteAt(from, seekPosition);
      seekPosition := seekPosition + count;
    }
  }
}
