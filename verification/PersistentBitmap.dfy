/** Bitmaps stored in a file (filesys/pbitmap.cc). */
module PersistentBitmaps {
  import opened Bytes
  import opened Bitmaps
  import opened FileHeaders
  import opened OpenFiles

  /** A new bitmap initialized from a file; bits that the file does not cover are
      clear. */
  method Fetch(file: OpenFile, numItems: nat) returns (b: Bitmap)
    requires Good(file.hdr) && numItems > 0
    ensures b.Valid() && fresh(b) && fresh(b.words) && b.numBits == numItems
    ensures b.words[..] == DecodeWords(Overlay(seq(4 * b.words.Length, _ => 0), FileBytes(file.disk.sectors, file.hdr)),
                                       b.words.Length)
  {
    b := new Bitmap(numItems);
    var n := 4 * b.words.Length;
    var buf := new Byte[n](_ => 0);
    var _ := file.ReadAt(buf, 0, n, 0);
    assert buf[..] == Overlay(seq(n, _ => 0), FileBytes(file.disk.sectors, file.hdr));
    var ws := DecodeWords(buf[..], b.words.Length);
    forall i | 0 <= i < b.words.Length {
      b.words[i] := ws[i];
    }
    assert b.words[..] == ws;
  }

  method WriteBack(b: Bitmap, file: OpenFile)
    requires b.Valid() && Good(file.hdr)
    modifies file.disk
    ensures file.disk.sectors == WriteCall(old(file.disk.sectors), file.hdr, 0, EncodeWords(b.words[..]))
  {
    var _ := file.WriteAt(EncodeWords(b.words[..]), 0);
  }
}
