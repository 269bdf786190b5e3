/** Directories (filesys/directory.cc): a table of fixed-size entries, each
    with a file name of at most nine characters and the sector of its header. */
module Directories {
  import opened Bytes
  import opened FileHeaders
  import opened OpenFiles

  const FILE_NAME_MAX_LEN := 9
  const ENTRY_SIZE := 20

  /** A zero-terminated string, without its terminator. */
  type CString = s: seq<Byte> | forall i | 0 <= i < |s| :: s[i] != 0 witness []

  datatype RawEntry = Entry(inUse: bool, sector: Int32, name: seq<Byte>)
  type DirEntry = e: RawEntry | |e.name| == FILE_NAME_MAX_LEN + 1
    witness Entry(false, 0, seq(FILE_NAME_MAX_LEN + 1, _ => 0))

  // ---------- Names ----------

  /** The part of a name that the directory keeps. */
  function Key(name: CString): CString {
    if |name| <= FILE_NAME_MAX_LEN then name else name[..FILE_NAME_MAX_LEN]
  }

  /** The string stored in a name field: up to the first zero, at most nine. */
  function FieldKey(field: seq<Byte>): CString
    requires |field| == FILE_NAME_MAX_LEN + 1
  {
    Before(field[..FILE_NAME_MAX_LEN])
  }

  function Before(s: seq<Byte>): (r: CString)
    ensures |r| <= |s| && r == s[..|r|] && (|r| < |s| ==> s[|r|] == 0)
  {
    if s == [] || s[0] == 0 then [] else [s[0]] + Before(s[1..])
  }

  function CharAt(name: CString, i: nat): Byte {
    if i < |name| then name[i] else 0
  }

  /** `strncmp(field, name, 9) == 0`, from character `i` on. */
  predicate StrnEqual(field: seq<Byte>, name: CString, i: nat)
    requires |field| == FILE_NAME_MAX_LEN + 1 && i <= FILE_NAME_MAX_LEN
    decreases FILE_NAME_MAX_LEN - i
  {
    i == FILE_NAME_MAX_LEN
    || (field[i] == CharAt(name, i) && (field[i] == 0 || StrnEqual(field, name, i + 1)))
  }

  /** `strncpy(field, name, 9)`: pads with zeros, leaves the tenth byte alone. */
  function Strncpy(field: seq<Byte>, name: CString): (r: seq<Byte>)
    requires |field| == FILE_NAME_MAX_LEN + 1
    ensures |r| == |field|
  {
    seq(FILE_NAME_MAX_LEN + 1, i requires 0 <= i < FILE_NAME_MAX_LEN + 1 =>
      if i < FILE_NAME_MAX_LEN then CharAt(name, i) else field[i])
  }

  lemma {:induction false} StrnEqualFrom(field: seq<Byte>, name: CString, i: nat)
    requires |field| == FILE_NAME_MAX_LEN + 1 && i <= FILE_NAME_MAX_LEN
    requires i <= |FieldKey(field)| && i <= |Key(name)| && FieldKey(field)[..i] == Key(name)[..i]
    ensures StrnEqual(field, name, i) <==> FieldKey(field) == Key(name)
    decreases FILE_NAME_MAX_LEN - i
  {
    var a, b := FieldKey(field), Key(name);
    if i < FILE_NAME_MAX_LEN && field[i] == CharAt(name, i) && field[i] != 0 {
      assert a[i] == field[i] && b[i] == name[i];
      assert a[..i + 1] == a[..i] + [a[i]] && b[..i + 1] == b[..i] + [b[i]];
      StrnEqualFrom(field, name, i + 1);
    } else if i == FILE_NAME_MAX_LEN || field[i] == CharAt(name, i) {
      assert a[..i] == a && b[..i] == b;
    } else if i < |a| && i < |b| {
      assert a[i] == field[i] && b[i] == name[i];
    }
  }

  /** Names are compared on their first nine characters. */
  lemma StrnEqualIsKeyEquality(field: seq<Byte>, name: CString)
    requires |field| == FILE_NAME_MAX_LEN + 1
    ensures StrnEqual(field, name, 0) <==> FieldKey(field) == Key(name)
  {
    StrnEqualFrom(field, name, 0);
  }

  lemma {:induction false} BeforeUnique(s: seq<Byte>, r: CString)
    requires |r| <= |s| && r == s[..|r|] && (|r| < |s| ==> s[|r|] == 0)
    ensures Before(s) == r
  {
    if |r| > 0 {
      assert s[1..][..|r| - 1] == r[1..];
      BeforeUnique(s[1..], r[1..]);
    }
  }

  lemma StoredNameIsKey(field: seq<Byte>, name: CString)
    requires |field| == FILE_NAME_MAX_LEN + 1
    ensures FieldKey(Strncpy(field, name)) == Key(name)
  {
    var s := Strncpy(field, name)[..FILE_NAME_MAX_LEN];
    assert s[..|Key(name)|] == Key(name);
    BeforeUnique(s, Key(name));
  }

  /** In a field that ends with a zero, as all do in an empty directory, the whole
      stored string is the key, and the field still ends with a zero. */
  lemma StoredNameIsTerminated(field: seq<Byte>, name: CString)
    requires |field| == FILE_NAME_MAX_LEN + 1 && field[FILE_NAME_MAX_LEN] == 0
    ensures Before(Strncpy(field, name)) == Key(name) && Strncpy(field, name)[FILE_NAME_MAX_LEN] == 0
  {
    var s := Strncpy(field, name);
    assert s[..|Key(name)|] == Key(name);
    BeforeUnique(s, Key(name));
  }

  // ---------- Tables ----------

  predicate Matches(e: DirEntry, key: CString) {
    e.inUse && FieldKey(e.name) == key
  }

  /** The first entry in use under `key`, or -1. */
  function IndexOf(t: seq<DirEntry>, key: CString): (r: int)
    ensures -1 <= r < |t|
    ensures r >= 0 ==> Matches(t[r], key)
    ensures forall i | 0 <= i < |t| && (r < 0 || i < r) :: !Matches(t[i], key)
  {
    if t == [] then -1
    else
      var r := IndexOf(t[..|t| - 1], key);
      if r < 0 && Matches(t[|t| - 1], key) then |t| - 1 else r
  }

  /** The first entry not in use, or -1. */
  function FreeIndex(t: seq<DirEntry>): (r: int)
    ensures -1 <= r < |t|
    ensures r >= 0 ==> !t[r].inUse
    ensures forall i | 0 <= i < |t| && (r < 0 || i < r) :: t[i].inUse
  {
    if t == [] then -1
    else
      var r := FreeIndex(t[..|t| - 1]);
      if r < 0 && !t[|t| - 1].inUse then |t| - 1 else r
  }

  // ---------- On disk ----------

  function EncodeEntry(e: DirEntry): (s: seq<Byte>)
    ensures |s| == ENTRY_SIZE
  {
    [if e.inUse then 1 else 0, 0, 0, 0] + EncodeInts([e.sector]) + e.name + [0, 0]
  }

  function DecodeEntry(s: seq<Byte>): DirEntry
    requires |s| == ENTRY_SIZE
  {
    Entry(s[0] != 0, DecodeInts(s[4..8], 1)[0], s[8..18])
  }

  function EncodeTable(t: seq<DirEntry>): (s: seq<Byte>)
    ensures |s| == ENTRY_SIZE * |t|
  {
    seq(ENTRY_SIZE * |t|, k requires 0 <= k < ENTRY_SIZE * |t| =>
      EncodeEntry(t[k / ENTRY_SIZE])[k % ENTRY_SIZE])
  }

  function DecodeTable(s: seq<Byte>, n: nat): (t: seq<DirEntry>)
    requires |s| == ENTRY_SIZE * n
    ensures |t| == n
  {
    seq(n, i requires 0 <= i < n => DecodeEntry(s[ENTRY_SIZE * i..ENTRY_SIZE * (i + 1)]))
  }

  lemma EntryRoundTrip(e: DirEntry)
    ensures DecodeEntry(EncodeEntry(e)) == e
  {
    IntsRoundTrip([e.sector]);
    assert EncodeEntry(e)[4..8] == EncodeInts([e.sector]);
    assert EncodeEntry(e)[8..18] == e.name;
  }

  lemma EncodedAt(t: seq<DirEntry>, i: nat)
    requires i < |t|
    ensures EncodeTable(t)[ENTRY_SIZE * i..ENTRY_SIZE * (i + 1)] == EncodeEntry(t[i])
  {
    forall j | 0 <= j < ENTRY_SIZE
      ensures EncodeTable(t)[ENTRY_SIZE * i + j] == EncodeEntry(t[i])[j]
    {
      assert (ENTRY_SIZE * i + j) / ENTRY_SIZE == i && (ENTRY_SIZE * i + j) % ENTRY_SIZE == j;
    }
  }

  lemma TableRoundTrip(t: seq<DirEntry>)
    ensures DecodeTable(EncodeTable(t), |t|) == t
  {
    forall i | 0 <= i < |t|
      ensures DecodeTable(EncodeTable(t), |t|)[i] == t[i]
    {
      EncodedAt(t, i);
      EntryRoundTrip(t[i]);
    }
  }

  // ---------- The class ----------

  class Directory {
    const table: array<DirEntry>

    constructor (size: nat)
      ensures fresh(table) && table.Length == size
      ensures forall i | 0 <= i < size ::
                table[i] == Entry(false, 0, seq(FILE_NAME_MAX_LEN + 1, _ => 0))
    {
      table := new DirEntry[size](_ => Entry(false, 0, seq(FILE_NAME_MAX_LEN + 1, _ => 0)));
    }

    /** The bytes of the table that the file covers are replaced. */
    method FetchFrom(file: OpenFile)
      requires Good(file.hdr)
      modifies table
      ensures table[..] == DecodeTable(Overlay(EncodeTable(old(table[..])), FileBytes(file.disk.sectors, file.hdr)),
                                       table.Length)
    {
      var bytes := EncodeTable(table[..]);
      var buf := new Byte[|bytes|](i requires 0 <= i < |bytes| => bytes[i]);
      assert buf[..] == bytes;
      var _ := file.ReadAt(buf, 0, |bytes|, 0);
      assert buf[..] == Overlay(bytes, FileBytes(file.disk.sectors, file.hdr));
      var t := DecodeTable(buf[..], table.Length);
      forall i | 0 <= i < table.Length {
        table[i] := t[i];
      }
      assert table[..] == t;
    }

    method WriteBack(file: OpenFile)
      requires Good(file.hdr)
      modifies file.disk
      ensures file.disk.sectors
              == WriteCall(old(file.disk.sectors), file.hdr, 0, EncodeTable(table[..]))
    {
      var _ := file.WriteAt(EncodeTable(table[..]), 0);
    }

    method FindIndex(name: CString) returns (r: int)
      ensures r == IndexOf(table[..], Key(name))
    {
      for i := 0 to table.Length
        invariant forall j | 0 <= j < i :: !Matches(table[j], Key(name))
      {
        StrnEqualIsKeyEquality(table[i].name, name);
        if table[i].inUse && StrnEqual(table[i].name, name, 0) {
          return i;
        }
      }
      return -1;
    }

    /** The header sector of the file called `name`, or -1. */
    method Find(name: CString) returns (sector: int)
      ensures var i := IndexOf(table[..], Key(name)); sector == if i < 0 then -1 else table[i].sector
    {
      var i := FindIndex(name);
      return if i != -1 then table[i].sector else -1;
    }

    method Add(name: CString, newSector: Int32) returns (ok: bool)
      modifies table
      ensures ok <==> IndexOf(old(table[..]), Key(name)) < 0 && FreeIndex(old(table[..])) >= 0
      ensures !ok ==> table[..] == old(table[..])
      ensures ok ==> table[..] == Added(old(table[..]), name, newSector)
    {
      var found := FindIndex(name);
      if found != -1 {
        return false;
      }
      for i := 0 to table.Length
        invariant table[..] == old(table[..])
        invariant forall j | 0 <= j < i :: table[j].inUse
      {
        if !table[i].inUse {
          assert i == FreeIndex(old(table[..]));
          table[i] := Entry(true, newSector, Strncpy(table[i].name, name));
          assert table[..] == Added(old(table[..]), name, newSector);
          return true;
        }
      }
      return false;
    }

    method Remove(name: CString) returns (ok: bool)
      modifies table
      ensures ok <==> IndexOf(old(table[..]), Key(name)) >= 0
      ensures !ok ==> table[..] == old(table[..])
      ensures ok ==> table[..] == Removed(old(table[..]), Key(name))
    {
      var i := FindIndex(name);
      if i == -1 {
        return false;
      }
      table[i] := table[i].(inUse := false);
      assert table[..] == Removed(old(table[..]), Key(name));
      return true;
    }
  }

  function Added(t: seq<DirEntry>, name: CString, sector: Int32): (r: seq<DirEntry>)
    requires FreeIndex(t) >= 0
    ensures |r| == |t|
  {
    var i := FreeIndex(t);
    t[i := Entry(true, sector, Strncpy(t[i].name, name))]
  }

  function Removed(t: seq<DirEntry>, key: CString): (r: seq<DirEntry>)
    requires IndexOf(t, key) >= 0
    ensures |r| == |t|
  {
    var i := IndexOf(t, key);
    t[i := t[i].(inUse := false)]
  }
}
