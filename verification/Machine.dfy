/** The simulated processor as far as the unaligned loads and stores need it:
    address translation (machine/translate.cc), and the instructions with the
    load delay slot (machine/mipssim.cc). */
module Machines {
  import opened Bytes
  import opened WordMerge
  import opened Wrappers

  const PAGE_SIZE := 128
  const NUM_PHYS_PAGES := 128
  const MEMORY_SIZE := 16384
  const TLB_SIZE := 4

  // ---------- Address translation ----------

  datatype Entry = Entry(
    virtualPage: int, physicalPage: int, valid: bool, readOnly: bool, use: bool, dirty: bool)

  /** The machine has a page table or a TLB, not both. */
  datatype Table = PageTable(entries: seq<Entry>) | Tlb(entries: seq<Entry>)

  datatype Exception = AddressError | PageFault | ReadOnly | BusError

  datatype Translation = Physical(address: nat) | Fault(exception: Exception)

  /** The first valid entry for a page, from position i on. */
  function FindEntry(entries: seq<Entry>, vpn: nat, i: nat): (r: Option<nat>)
    requires i <= |entries|
    ensures r.Some? ==> i <= r.value < |entries|
    decreases |entries| - i
  {
    if i == |entries| then None
    else if entries[i].valid && entries[i].virtualPage == vpn then Some(i)
    else FindEntry(entries, vpn, i + 1)
  }

  function SlotOf(table: Table, vpn: nat): (r: Option<nat>)
    ensures r.Some? ==> r.value < |table.entries|
  {
    match table
    case PageTable(entries) => if vpn < |entries| && entries[vpn].valid then Some(vpn) else None
    case Tlb(entries) => FindEntry(entries, vpn, 0)
  }

  function Translate(table: Table, virtAddr: Word, size: nat, writing: bool): (t: Translation)
    ensures t.Physical? ==> t.address < MEMORY_SIZE && t.address % PAGE_SIZE == virtAddr % PAGE_SIZE
    ensures t.Physical? ==>
              var slot := SlotOf(table, virtAddr / PAGE_SIZE);
              slot.Some? && t.address / PAGE_SIZE == table.entries[slot.value].physicalPage
  {
    var vpn, offset := virtAddr / PAGE_SIZE, virtAddr % PAGE_SIZE;
    if (size == 4 && virtAddr % 4 != 0) || (size == 2 && virtAddr % 2 != 0) then Fault(AddressError)
    else if table.PageTable? && vpn >= |table.entries| then Fault(AddressError)
    else
      match SlotOf(table, vpn)
      case None => Fault(PageFault)
      case Some(i) =>
        var entry := table.entries[i];
        if entry.readOnly && writing then Fault(ReadOnly)
        else if !(0 <= entry.physicalPage < NUM_PHYS_PAGES) then Fault(BusError)
        else Physical(entry.physicalPage * PAGE_SIZE + offset)
  }

  predicate Matches(entry: Entry, vpn: nat) {
    entry.valid && entry.virtualPage == vpn
  }

  /** Entry i is the one for the page: by its position in a page table, as the
      first valid one with the number of the page in a TLB. */
  ghost predicate Maps(table: Table, vpn: nat, i: nat) {
    && i < |table.entries| && table.entries[i].valid
    && (if table.PageTable? then i == vpn
        else Matches(table.entries[i], vpn) && forall j: nat | j < i :: !Matches(table.entries[j], vpn))
  }

  lemma {:induction false} FindsFirst(entries: seq<Entry>, vpn: nat, i: nat)
    requires i <= |entries|
    ensures var k := match FindEntry(entries, vpn, i) case Some(k) => k case None => |entries|;
            && (k < |entries| ==> Matches(entries[k], vpn))
            && (forall j: nat | i <= j < k :: !Matches(entries[j], vpn))
    decreases |entries| - i
  {
    if i < |entries| && !Matches(entries[i], vpn) { FindsFirst(entries, vpn, i + 1); }
  }

  lemma SlotIff(table: Table, vpn: nat, i: nat)
    ensures SlotOf(table, vpn) == Some(i) <==> Maps(table, vpn, i)
    ensures SlotOf(table, vpn) == None ==> !Maps(table, vpn, i)
  {
    if table.Tlb? { FindsFirst(table.entries, vpn, 0); }
  }

  predicate Aligned(virtAddr: Word, size: nat) {
    (size == 4 ==> virtAddr % 4 == 0) && (size == 2 ==> virtAddr % 2 == 0)
  }

  /** A virtual address has a physical one exactly if it is aligned and its page
      has an entry with a frame of memory that may be used so; the physical one is
      in that frame, at the same offset. */
  lemma PhysicalIff(table: Table, virtAddr: Word, size: nat, writing: bool, p: nat)
    ensures Translate(table, virtAddr, size, writing) == Physical(p) <==>
              && Aligned(virtAddr, size)
              && exists i: nat :: Maps(table, virtAddr / PAGE_SIZE, i)
                                  && Reaches(table.entries[i], virtAddr, writing, p)
  {
    var vpn := virtAddr / PAGE_SIZE;
    var slot := SlotOf(table, vpn);
    if slot.Some? { SlotIff(table, vpn, slot.value); }
    if i: nat :| Maps(table, vpn, i) && Reaches(table.entries[i], virtAddr, writing, p) { SlotIff(table, vpn, i); }
  }

  /** The entry allows the access, and p is in its frame where the address is in
      its page. */
  predicate Reaches(entry: Entry, virtAddr: Word, writing: bool, p: nat) {
    && !(entry.readOnly && writing)
    && 0 <= entry.physicalPage < NUM_PHYS_PAGES
    && p / PAGE_SIZE == entry.physicalPage && p % PAGE_SIZE == virtAddr % PAGE_SIZE
  }

  /** The condition of each exception. */
  lemma FaultIff(table: Table, virtAddr: Word, size: nat, writing: bool)
    ensures var t, vpn := Translate(table, virtAddr, size, writing), virtAddr / PAGE_SIZE;
            var inRange := Aligned(virtAddr, size) && (table.PageTable? ==> vpn < |table.entries|);
            && (t == Fault(AddressError) <==> !inRange)
            && (t == Fault(PageFault) <==> inRange && forall i: nat :: !Maps(table, vpn, i))
            && (t == Fault(ReadOnly) <==>
                  inRange && writing && exists i: nat :: Maps(table, vpn, i) && table.entries[i].readOnly)
            && (t == Fault(BusError) <==>
                  inRange && exists i: nat ::
                    Maps(table, vpn, i) && !(table.entries[i].readOnly && writing)
                    && !(0 <= table.entries[i].physicalPage < NUM_PHYS_PAGES))
  {
    var vpn := virtAddr / PAGE_SIZE;
    forall i: nat
      ensures SlotOf(table, vpn) == Some(i) <==> Maps(table, vpn, i)
      ensures SlotOf(table, vpn) == None ==> !Maps(table, vpn, i)
    { SlotIff(table, vpn, i); }
  }

  /** The use and dirty bits that a translation sets. */
  function Touched(table: Table, virtAddr: Word, writing: bool): Table {
    match SlotOf(table, virtAddr / PAGE_SIZE)
    case None => table
    case Some(i) =>
      var entry := table.entries[i];
      table.(entries := table.entries[i := entry.(use := true, dirty := entry.dirty || writing)])
  }

  /** Tables that differ in use and dirty bits only. */
  ghost predicate SameMapping(t: Table, u: Table) {
    && (t.PageTable? <==> u.PageTable?)
    && |t.entries| == |u.entries|
    && (forall i | 0 <= i < |t.entries| ::
          u.entries[i].(use := t.entries[i].use, dirty := t.entries[i].dirty) == t.entries[i])
  }

  lemma {:induction false} SameFind(es: seq<Entry>, fs: seq<Entry>, vpn: nat, i: nat)
    requires |es| == |fs| && i <= |es|
    requires forall k | 0 <= k < |es| :: fs[k].(use := es[k].use, dirty := es[k].dirty) == es[k]
    ensures FindEntry(es, vpn, i) == FindEntry(fs, vpn, i)
    decreases |es| - i
  {
    if i < |es| {
      assert fs[i].(use := es[i].use, dirty := es[i].dirty) == es[i];
      SameFind(es, fs, vpn, i + 1);
    }
  }

  lemma SameTranslation(t: Table, u: Table, virtAddr: Word, size: nat, writing: bool)
    requires SameMapping(t, u)
    ensures Translate(t, virtAddr, size, writing) == Translate(u, virtAddr, size, writing)
  {
    var vpn := virtAddr / PAGE_SIZE;
    if t.Tlb? { SameFind(t.entries, u.entries, vpn, 0); }
    assert SlotOf(t, vpn) == SlotOf(u, vpn);
    if SlotOf(t, vpn).Some? {
      var i := SlotOf(t, vpn).value;
      assert u.entries[i].(use := t.entries[i].use, dirty := t.entries[i].dirty) == t.entries[i];
    }
  }

  lemma TouchKeepsMapping(t: Table, virtAddr: Word, writing: bool)
    ensures SameMapping(t, Touched(t, virtAddr, writing))
  {
  }

  /** The bytes of an aligned word lie in one page, one after the other. */
  lemma WordInPage(t: Table, virtAddr: Word, writing: bool, k: nat)
    requires Translate(t, virtAddr, 4, writing).Physical? && k < 4
    ensures virtAddr + k < 0x1_0000_0000
    ensures Translate(t, virtAddr + k, 1, writing) == Physical(Translate(t, virtAddr, 4, writing).address + k)
    ensures Translate(t, virtAddr, 4, writing).address + 4 <= MEMORY_SIZE
  {
    AlignedInPage(virtAddr, k);
  }

  lemma AlignedInPage(a: Word, k: nat)
    requires a % 4 == 0 && k < 4
    ensures a + k < 0x1_0000_0000 && a % PAGE_SIZE + 4 <= PAGE_SIZE
    ensures (a + k) / PAGE_SIZE == a / PAGE_SIZE && (a + k) % PAGE_SIZE == a % PAGE_SIZE + k
  {
    var n := a / 4;
    Remainder(a, PAGE_SIZE, n / 32, 4 * (n % 32));
    Remainder(a + k, PAGE_SIZE, n / 32, 4 * (n % 32) + k);
  }

  // ---------- Registers, memory and the delay slot ----------

  /** Addition in 32 bits. */
  function Plus(a: Word, k: Word): Word {
    var sum := a + k;
    if sum < 0x1_0000_0000 then sum else sum - 0x1_0000_0000
  }

  type Register = r: int | 0 <= r < 32

  /** The general registers, the load that is still to take effect (register 0
      for none), memory and the translation table. */
  datatype Machine = Machine(
    regs: seq<Word>, loadReg: Register, loadValue: Word, memory: seq<Byte>, table: Table)

  predicate Valid(m: Machine) {
    |m.regs| == 32 && m.regs[0] == 0 && |m.memory| == MEMORY_SIZE
  }

  function DelayedLoad(m: Machine, nextReg: Register, nextValue: Word): (r: Machine)
    requires Valid(m)
    ensures Valid(r)
  {
    m.(regs := m.regs[m.loadReg := m.loadValue][0 := 0], loadReg := nextReg, loadValue := nextValue)
  }

  /** What an interrupt between two instructions does to the registers. */
  function Interrupted(m: Machine): (r: Machine)
    requires Valid(m)
    ensures Valid(r)
  {
    DelayedLoad(m, 0, 0)
  }

  function Address(m: Machine, rs: Register, extra: Word): Word
    requires Valid(m)
  {
    Plus(m.regs[rs], extra)
  }

  /** a is the sum of the base register and the offset in 32 bits. */
  predicate IsAddress(m: Machine, rs: Register, extra: Word, a: Word)
    requires Valid(m)
  {
    a == (m.regs[rs] + extra) % 0x1_0000_0000
  }

  lemma AddressIs(m: Machine, rs: Register, extra: Word, a: Word)
    requires Valid(m) && IsAddress(m, rs, extra, a)
    ensures Address(m, rs, extra) == a
  {
  }

  function WriteWord(memory: seq<Byte>, p: nat, w: Word): (r: seq<Byte>)
    requires p + 4 <= |memory|
    ensures |r| == |memory|
  {
    memory[p := WordByte(w, 0)][p + 1 := WordByte(w, 1)][p + 2 := WordByte(w, 2)][p + 3 := WordByte(w, 3)]
  }

  function MergedStore(left: bool, value: Word, register: Word, byte: nat): Word
    requires byte < 4
  {
    if left then StoreLeft(value, register, byte) else StoreRight(value, register, byte)
  }

  /** Memory after SWL or SWR of a register at byte `byte` of the word at p. */
  function Stored(memory: seq<Byte>, p: nat, left: bool, register: Word, byte: nat): (r: seq<Byte>)
    requires p + 4 <= |memory| && byte < 4
    ensures |r| == |memory|
  {
    WriteWord(memory, p, MergedStore(left, WordAt(memory, p), register, byte))
  }

  function MergedLoad(left: bool, register: Word, value: Word, byte: nat): Word
    requires byte < 4
  {
    if left then LoadLeft(register, value, byte) else LoadRight(register, value, byte)
  }

  /** The register after LWL or LWR at byte `byte` of the word at p. */
  function Loaded(memory: seq<Byte>, p: nat, left: bool, register: Word, byte: nat): Word
    requires p + 4 <= |memory| && byte < 4
  {
    MergedLoad(left, register, WordAt(memory, p), byte)
  }

  datatype Outcome = Done(m: Machine) | Trap(exception: Exception, m: Machine)

  /** The value LWL and LWR merge into: that of the pending load, if it is for
      the same register. */
  function Current(m: Machine, rt: Register): Word
    requires Valid(m)
  {
    if m.loadReg == rt then m.loadValue else m.regs[rt]
  }

  /** LWL and LWR: one aligned read, then the merge is the next delayed load. */
  function Load(m: Machine, left: bool, rs: Register, rt: Register, extra: Word): (r: Outcome)
    requires Valid(m)
    ensures Valid(r.m)
  {
    var tmp := Address(m, rs, extra);
    var byte := tmp % 4;
    match Translate(m.table, tmp - byte, 4, false)
    case Fault(e) => Trap(e, DelayedLoad(m, 0, 0))
    case Physical(p) =>
      WordInPage(m.table, tmp - byte, false, 0);
      Done(DelayedLoad(m.(table := Touched(m.table, tmp - byte, false)), rt,
                       MergedLoad(left, Current(m, rt), WordAt(m.memory, p), byte)))
  }

  /** The write that ends SWL and SWR. */
  function StoreWord(m: Machine, a: Word, w: Word): (r: Outcome)
    requires Valid(m)
    ensures Valid(r.m)
  {
    match Translate(m.table, a, 4, true)
    case Fault(e) => Trap(e, DelayedLoad(m, 0, 0))
    case Physical(p) =>
      WordInPage(m.table, a, true, 0);
      Done(DelayedLoad(m.(memory := WriteWord(m.memory, p, w), table := Touched(m.table, a, true)), 0, 0))
  }

  /** SWL and SWR: an aligned read, the merge, and an aligned write. */
  function Store(m: Machine, left: bool, rs: Register, rt: Register, extra: Word): (r: Outcome)
    requires Valid(m)
    ensures Valid(r.m)
  {
    var tmp := Address(m, rs, extra);
    var byte := tmp % 4;
    match Translate(m.table, tmp - byte, 4, false)
    case Fault(e) => Trap(e, DelayedLoad(m, 0, 0))
    case Physical(p) =>
      WordInPage(m.table, tmp - byte, false, 0);
      StoreWord(m.(table := Touched(m.table, tmp - byte, false)), tmp - byte,
                MergedStore(left, WordAt(m.memory, p), m.regs[rt], byte))
  }

  /** SWL and SWR after the read: m' is the machine it leaves. */
  lemma StoreBegins(m: Machine, m': Machine, left: bool, rs: Register, rt: Register, extra: Word, a: Word,
                    t: Translation, value: Word)
    requires Valid(m) && a == Address(m, rs, extra) && t == Translate(m.table, a - a % 4, 4, false)
    requires t.Fault? ==> m' == m
    requires t.Physical? ==> t.address + 4 <= MEMORY_SIZE && value == WordAt(m.memory, t.address)
    requires t.Physical? ==> m' == m.(table := Touched(m.table, a - a % 4, false))
    ensures t.Fault? ==> Store(m, left, rs, rt, extra) == Trap(t.exception, DelayedLoad(m', 0, 0))
    ensures t.Physical? ==>
              Store(m, left, rs, rt, extra) == StoreWord(m', a - a % 4, MergedStore(left, value, m'.regs[rt], a % 4))
  {
  }

  // ---------- One instruction ----------

  /** The physical byte behind a virtual one. */
  function ByteAddress(table: Table, a: Word): (p: nat)
    requires Translate(table, a, 1, false).Physical?
    ensures p < MEMORY_SIZE
  {
    Translate(table, a, 1, false).address
  }

  lemma WordBytesAt(memory: seq<Byte>, p: nat, i: nat)
    requires p + 4 <= |memory| && i < 4
    ensures WordByte(WordAt(memory, p), i) == memory[p + i]
  {
    JoinByte(memory[p], memory[p + 1], memory[p + 2], memory[p + 3], i);
    assert WordAt(memory, p) == Join(memory[p], memory[p + 1], memory[p + 2], memory[p + 3]);
  }

  /** A write goes where a read of the same address goes. */
  lemma WriteTranslates(t: Table, a: Word, size: nat)
    requires Translate(t, a, size, true).Physical?
    ensures Translate(t, a, size, false) == Translate(t, a, size, true)
  {
  }

  lemma StoredByte(memory: seq<Byte>, p: nat, left: bool, register: Word, byte: nat, i: nat)
    requires p + 4 <= |memory| && byte < 4 && i < |memory|
    ensures Stored(memory, p, left, register, byte)[i] ==
              if left && p <= i <= p + byte then WordByte(register, i - p + 3 - byte)
              else if !left && p + byte <= i < p + 4 then WordByte(register, i - p - byte)
              else memory[i]
  {
    if p <= i < p + 4 {
      StoreBytes(WordAt(memory, p), register, byte, i - p);
      WordBytesAt(memory, p, i - p);
    }
  }

  lemma LoadedByte(memory: seq<Byte>, p: nat, left: bool, register: Word, byte: nat, i: nat)
    requires p + 4 <= |memory| && byte < 4 && i < 4
    ensures WordByte(Loaded(memory, p, left, register, byte), i) ==
              if left then (if i < 3 - byte then WordByte(register, i) else memory[p + i - (3 - byte)])
              else (if i < 4 - byte then memory[p + i + byte] else WordByte(register, i))
  {
    LoadBytes(register, WordAt(memory, p), byte, i);
    if left && i >= 3 - byte { WordBytesAt(memory, p, i - (3 - byte)); }
    if !left && i < 4 - byte { WordBytesAt(memory, p, i + byte); }
  }

  /** Where the aligned word around an address lies in memory. */
  function WordAddress(table: Table, a: Word): (p: nat)
    requires Translate(table, a - a % 4, 4, false).Physical?
    ensures p + 4 <= MEMORY_SIZE
  {
    WordInPage(table, a - a % 4, false, 0);
    Translate(table, a - a % 4, 4, false).address
  }

  /** What SWL and SWR do when they do not trap. */
  lemma StoreEffect(m: Machine, left: bool, rs: Register, rt: Register, extra: Word)
    requires Valid(m) && Store(m, left, rs, rt, extra).Done?
    ensures var tmp := Address(m, rs, extra); var m' := Store(m, left, rs, rt, extra).m;
            && Translate(m.table, tmp - tmp % 4, 4, false).Physical?
            && SameMapping(m.table, m'.table)
            && m'.regs == Interrupted(m).regs && m'.loadReg == 0 && m'.loadValue == 0
            && m'.memory == Stored(m.memory, WordAddress(m.table, tmp), left, m.regs[rt], tmp % 4)
  {
    var tmp := Address(m, rs, extra);
    var a := tmp - tmp % 4;
    var t1 := Touched(m.table, a, false);
    TouchKeepsMapping(m.table, a, false);
    TouchKeepsMapping(t1, a, true);
    SameTranslation(m.table, t1, a, 4, false);
    WriteTranslates(t1, a, 4);
  }

  /** What LWL and LWR do when they do not trap. */
  lemma LoadEffect(m: Machine, left: bool, rs: Register, rt: Register, extra: Word)
    requires Valid(m) && Load(m, left, rs, rt, extra).Done?
    ensures var tmp := Address(m, rs, extra); var m' := Load(m, left, rs, rt, extra).m;
            && Translate(m.table, tmp - tmp % 4, 4, false).Physical?
            && SameMapping(m.table, m'.table) && m'.memory == m.memory
            && m'.regs == Interrupted(m).regs && m'.loadReg == rt
            && m'.loadValue == Loaded(m.memory, WordAddress(m.table, tmp), left, Current(m, rt), tmp % 4)
  {
    var tmp := Address(m, rs, extra);
    TouchKeepsMapping(m.table, tmp - tmp % 4, false);
  }

  /** SWL and SWR go through exactly if the aligned word can be written; if not,
      memory is as it was and the pending load has taken effect. */
  lemma StoreTrapsIff(m: Machine, left: bool, rs: Register, rt: Register, extra: Word, a: Word)
    requires Valid(m) && IsAddress(m, rs, extra, a)
    ensures var r := Store(m, left, rs, rt, extra);
            && (r.Done? <==> Translate(m.table, a - a % 4, 4, true).Physical?)
            && (r.Trap? ==> r.m.(table := m.table) == Interrupted(m) && SameMapping(m.table, r.m.table))
  {
    AddressIs(m, rs, extra, a);
    var base := a - a % 4;
    TouchKeepsMapping(m.table, base, false);
    SameTranslation(m.table, Touched(m.table, base, false), base, 4, true);
    if Translate(m.table, base, 4, true).Physical? { WriteTranslates(m.table, base, 4); }
  }

  /** LWL and LWR go through exactly if the aligned word can be read. */
  lemma LoadTrapsIff(m: Machine, left: bool, rs: Register, rt: Register, extra: Word, a: Word)
    requires Valid(m) && IsAddress(m, rs, extra, a)
    ensures var r := Load(m, left, rs, rt, extra);
            && (r.Done? <==> Translate(m.table, a - a % 4, 4, false).Physical?)
            && (r.Trap? ==> r.m == Interrupted(m))
  {
    AddressIs(m, rs, extra, a);
  }

  /** The entry for the page of a is used, and dirty if it was or is written; all
      others are as they were. */
  ghost predicate Marked(t: Table, t': Table, a: Word, writing: bool) {
    && (t.PageTable? <==> t'.PageTable?) && |t.entries| == |t'.entries|
    && (forall i: nat | i < |t.entries| ::
          t'.entries[i] == if Maps(t, a / PAGE_SIZE, i)
                           then t.entries[i].(use := true, dirty := t.entries[i].dirty || writing) else t.entries[i])
  }

  lemma TouchMarks(t: Table, a: Word, b: Word, writing: bool)
    requires b == a - a % 4
    ensures Marked(t, Touched(t, b, writing), a, writing)
  {
    AlignedInPage(b, a % 4);
    forall i: nat
      ensures SlotOf(t, a / PAGE_SIZE) == Some(i) <==> Maps(t, a / PAGE_SIZE, i)
      ensures SlotOf(t, a / PAGE_SIZE) == None ==> !Maps(t, a / PAGE_SIZE, i)
    { SlotIff(t, a / PAGE_SIZE, i); }
  }

  lemma MarkedTwice(t: Table, t1: Table, t2: Table, a: Word)
    requires SameMapping(t, t1) && Marked(t, t1, a, false) && Marked(t1, t2, a, true)
    ensures Marked(t, t2, a, true)
  {
    var vpn := a / PAGE_SIZE;
    forall i: nat ensures Maps(t1, vpn, i) <==> Maps(t, vpn, i) { SameMaps(t, t1, vpn, i); }
  }

  lemma SameMaps(t: Table, u: Table, vpn: nat, i: nat)
    requires SameMapping(t, u)
    ensures Maps(u, vpn, i) <==> Maps(t, vpn, i)
  {
    forall j: nat | j < |t.entries| ensures Matches(u.entries[j], vpn) <==> Matches(t.entries[j], vpn) {
      assert u.entries[j].(use := t.entries[j].use, dirty := t.entries[j].dirty) == t.entries[j];
    }
  }

  /** A load that goes through marks its page as used and nothing else. */
  lemma LoadMarks(m: Machine, left: bool, rs: Register, rt: Register, extra: Word, a: Word)
    requires Valid(m) && IsAddress(m, rs, extra, a) && Load(m, left, rs, rt, extra).Done?
    ensures Marked(m.table, Load(m, left, rs, rt, extra).m.table, a, false)
  {
    AddressIs(m, rs, extra, a);
    TouchMarks(m.table, a, a - a % 4, false);
  }

  /** A store that goes through marks its page as used and dirty; one that finds
      the page read-only has read it, and marks it as used. */
  lemma StoreMarks(m: Machine, left: bool, rs: Register, rt: Register, extra: Word, a: Word)
    requires Valid(m) && IsAddress(m, rs, extra, a)
    ensures var r := Store(m, left, rs, rt, extra);
            && (r.Done? ==> Marked(m.table, r.m.table, a, true))
            && (r.Trap? && Translate(m.table, a - a % 4, 4, false).Physical? ==> Marked(m.table, r.m.table, a, false))
            && (r.Trap? && Translate(m.table, a - a % 4, 4, false).Fault? ==> r.m.table == m.table)
  {
    AddressIs(m, rs, extra, a);
    var base := a - a % 4;
    var t1 := Touched(m.table, base, false);
    TouchKeepsMapping(m.table, base, false);
    TouchMarks(m.table, a, base, false);
    TouchMarks(t1, a, base, true);
    MarkedTwice(m.table, t1, Touched(t1, base, true), a);
  }

  // ---------- Pairs of instructions ----------

  /** The pending load leaves r with the value it has. */
  predicate Keeps(m: Machine, r: Register)
    requires Valid(m)
  {
    Interrupted(m).regs[r] == m.regs[r]
  }

  /** No load into r is pending; register 0 cannot be loaded. */
  predicate Settled(m: Machine, r: Register) {
    r == 0 || m.loadReg != r
  }

  ghost predicate BytesMapped(table: Table, a: Word) {
    forall k: nat | k < 4 :: Translate(table, Plus(a, k), 1, false).Physical?
  }

  ghost predicate PairMapped(table: Table, a: Word) {
    && Translate(table, a - a % 4, 4, false).Physical?
    && Translate(table, Plus(a, 3) - Plus(a, 3) % 4, 4, false).Physical?
  }

  /** A byte of the aligned word around an address. */
  lemma ByteOfWord(table: Table, a: Word, x: Word, i: nat)
    requires Translate(table, a - a % 4, 4, false).Physical? && i < 4 && x == a - a % 4 + i
    ensures Translate(table, x, 1, false) == Physical(WordAddress(table, a) + i)
  {
    WordInPage(table, a - a % 4, false, i);
  }

  /** Where the four bytes from an address on lie: the first ones at the end of
      one aligned word, the others at the beginning of the next. */
  lemma PairBytes(table: Table, a: Word, k: nat)
    requires PairMapped(table, a) && k < 4
    ensures Translate(table, Plus(a, k), 1, false)
         == Physical(if k < 4 - a % 4 then WordAddress(table, a) + a % 4 + k
                     else WordAddress(table, Plus(a, 3)) + k - (4 - a % 4))
  {
    SecondWord(a, k);
    if k < 4 - a % 4 {
      ByteOfWord(table, a, Plus(a, k), a % 4 + k);
    } else {
      ByteOfWord(table, Plus(a, 3), Plus(a, k), k - (4 - a % 4));
    }
  }

  lemma SecondWord(a: Word, k: nat)
    requires k < 4
    ensures Plus(a, 3) % 4 == (a % 4 + 3) % 4
    ensures a % 4 == 0 ==> Plus(a, 3) - Plus(a, 3) % 4 == a
    ensures Plus(a, k) == if k < 4 - a % 4 then a - a % 4 + (a % 4 + k)
                          else Plus(a, 3) - Plus(a, 3) % 4 + (k - (4 - a % 4))
  {
  }

  lemma SameBytes(t: Table, u: Table, a: Word, k: nat)
    requires SameMapping(t, u) && k < 4 && Translate(t, Plus(a, k), 1, false).Physical?
    ensures Translate(u, Plus(a, k), 1, false).Physical?
    ensures ByteAddress(u, Plus(a, k)) == ByteAddress(t, Plus(a, k))
  {
    SameTranslation(t, u, Plus(a, k), 1, false);
  }

  lemma AddressPlus(m: Machine, rs: Register, extra: Word)
    requires Valid(m)
    ensures Address(m, rs, Plus(extra, 3)) == Plus(Address(m, rs, extra), 3)
  {
  }

  lemma SameAddress(m: Machine, m': Machine, rs: Register, extra: Word)
    requires Valid(m) && Valid(m') && m'.regs[rs] == m.regs[rs]
    ensures Address(m', rs, extra) == Address(m, rs, extra)
  {
  }

  lemma PlaceInPage(a: Word, j: nat, k: nat)
    requires j < k < 4
    ensures Plus(a, j) % PAGE_SIZE != Plus(a, k) % PAGE_SIZE
  {
    assert Plus(a, j) % PAGE_SIZE == (a % PAGE_SIZE + j) % PAGE_SIZE;
    assert Plus(a, k) % PAGE_SIZE == (a % PAGE_SIZE + k) % PAGE_SIZE;
  }

  /** The four bytes are different bytes of memory, whatever the page table
      does: they have different places within their pages. */
  lemma BytesApart(table: Table, a: Word, j: nat, k: nat)
    requires j < k < 4
    requires Translate(table, Plus(a, j), 1, false).Physical? && Translate(table, Plus(a, k), 1, false).Physical?
    ensures ByteAddress(table, Plus(a, j)) != ByteAddress(table, Plus(a, k))
  {
    PlaceInPage(a, j, k);
  }

  /** The k-th of four bytes that begin at byte b of the word at p and go on in
      the word at q. */
  function Spot(p: nat, q: nat, b: nat, k: nat): nat
    requires b < 4 && k < 4
  {
    if k < 4 - b then p + b + k else q + k - (4 - b)
  }

  predicate SpotsApart(p: nat, q: nat, b: nat)
    requires b < 4
  {
    var s0, s1, s2, s3 := Spot(p, q, b, 0), Spot(p, q, b, 1), Spot(p, q, b, 2), Spot(p, q, b, 3);
    s0 != s1 && s0 != s2 && s0 != s3 && s1 != s2 && s1 != s3 && s2 != s3
  }

  /** r is memory with the bytes written that SWL or SWR writes, and no other. */
  ghost predicate HasStored(memory: seq<Byte>, r: seq<Byte>, p: nat, left: bool, register: Word, byte: nat)
    requires byte < 4
  {
    && |r| == |memory|
    && (forall i | 0 <= i < |memory| ::
          r[i] == if left && p <= i <= p + byte then WordByte(register, i - p + 3 - byte)
                  else if !left && p + byte <= i < p + 4 then WordByte(register, i - p - byte)
                  else memory[i])
  }

  lemma StoredHas(memory: seq<Byte>, p: nat, left: bool, register: Word, byte: nat)
    requires p + 4 <= |memory| && byte < 4
    ensures HasStored(memory, Stored(memory, p, left, register, byte), p, left, register, byte)
  {
    var r := Stored(memory, p, left, register, byte);
    forall i | 0 <= i < |memory|
      ensures r[i] == if left && p <= i <= p + byte then WordByte(register, i - p + 3 - byte)
                      else if !left && p + byte <= i < p + 4 then WordByte(register, i - p - byte)
                      else memory[i]
    { StoredByte(memory, p, left, register, byte, i); }
  }

  lemma SecondSpotApart(p: nat, q: nat, b: nat, k: nat)
    requires b < 4 && 4 - b <= k < 4 && SpotsApart(p, q, b)
    ensures !(p + b <= Spot(p, q, b, k) < p + 4)
  {
  }

  /** SWL of v at the last of the four bytes, then SWR of w at the first: which
      bytes come from which. */
  lemma PairStoresSpot(memory: seq<Byte>, r: seq<Byte>, r': seq<Byte>, p: nat, q: nat, b: nat, v: Word, w: Word, k: nat)
    requires p + 4 <= |memory| && q + 4 <= |memory| && b < 4 && k < 4
    requires SpotsApart(p, q, b) && (b == 0 ==> p == q)
    requires HasStored(memory, r, q, true, v, (b + 3) % 4) && HasStored(r, r', p, false, w, b)
    ensures r'[Spot(p, q, b, k)] == WordByte(if k < 4 - b then w else v, k)
  {
    if k >= 4 - b { SecondSpotApart(p, q, b, k); }
  }

  /** w is the register with the bytes replaced that LWL or LWR replaces. */
  ghost predicate HasLoaded(memory: seq<Byte>, w: Word, p: nat, left: bool, register: Word, byte: nat)
    requires p + 4 <= |memory| && byte < 4
  {
    forall i: nat | i < 4 ::
      WordByte(w, i) == if left then (if i < 3 - byte then WordByte(register, i) else memory[p + i - (3 - byte)])
                        else (if i < 4 - byte then memory[p + i + byte] else WordByte(register, i))
  }

  lemma LoadedHas(memory: seq<Byte>, p: nat, left: bool, register: Word, byte: nat)
    requires p + 4 <= |memory| && byte < 4
    ensures HasLoaded(memory, Loaded(memory, p, left, register, byte), p, left, register, byte)
  {
    LoadedByte(memory, p, left, register, byte, 0);
    LoadedByte(memory, p, left, register, byte, 1);
    LoadedByte(memory, p, left, register, byte, 2);
    LoadedByte(memory, p, left, register, byte, 3);
  }

  /** LWR at the first of the four bytes, then LWL at the last. */
  lemma PairLoadsByte(memory: seq<Byte>, p: nat, q: nat, b: nat, register: Word, v: Word, w: Word, k: nat)
    requires p + 4 <= |memory| && q + 4 <= |memory| && b < 4 && k < 4 && (b == 0 ==> p == q)
    requires HasLoaded(memory, v, p, false, register, b) && HasLoaded(memory, w, q, true, v, (b + 3) % 4)
    ensures WordByte(w, k) == memory[Spot(p, q, b, k)]
  {
  }

  // ---------- The unaligned word ----------

  /** The bytes behind an address are at the spots of the two words. */
  lemma SpotsOfPair(table: Table, a: Word, k: nat)
    requires PairMapped(table, a) && k < 4
    ensures Translate(table, Plus(a, k), 1, false)
         == Physical(Spot(WordAddress(table, a), WordAddress(table, Plus(a, 3)), a % 4, k))
  {
    PairBytes(table, a, k);
  }

  lemma PairSpotsApart(table: Table, a: Word)
    requires PairMapped(table, a)
    ensures SpotsApart(WordAddress(table, a), WordAddress(table, Plus(a, 3)), a % 4)
    ensures Plus(a, 3) % 4 == (a % 4 + 3) % 4
    ensures a % 4 == 0 ==> WordAddress(table, a) == WordAddress(table, Plus(a, 3))
  {
    SecondWord(a, 0);
    SpotsOfPair(table, a, 0);
    SpotsOfPair(table, a, 1);
    SpotsOfPair(table, a, 2);
    SpotsOfPair(table, a, 3);
    BytesApart(table, a, 0, 1);
    BytesApart(table, a, 0, 2);
    BytesApart(table, a, 0, 3);
    BytesApart(table, a, 1, 2);
    BytesApart(table, a, 1, 3);
    BytesApart(table, a, 2, 3);
  }

  lemma SettledStays(m: Machine, r: Register)
    requires Valid(m) && Settled(m, r)
    ensures Keeps(m, r)
  {
  }

  lemma NothingPending(m: Machine)
    requires Valid(m) && m.loadReg == 0 && m.loadValue == 0
    ensures Interrupted(m) == m
  {
    assert Interrupted(m).regs == m.regs;
  }

  lemma SameWord(t: Table, u: Table, a: Word)
    requires SameMapping(t, u) && Translate(u, a - a % 4, 4, false).Physical?
    ensures Translate(t, a - a % 4, 4, false).Physical? && WordAddress(u, a) == WordAddress(t, a)
  {
    SameTranslation(t, u, a - a % 4, 4, false);
  }

  /** SWL or SWR took m to m', at address a. */
  ghost predicate StoreStep(m: Machine, m': Machine, left: bool, a: Word, register: Word) {
    && Valid(m) && Valid(m')
    && Translate(m.table, a - a % 4, 4, false).Physical?
    && SameMapping(m.table, m'.table)
    && m'.regs == Interrupted(m).regs && m'.loadReg == 0 && m'.loadValue == 0
    && HasStored(m.memory, m'.memory, WordAddress(m.table, a), left, register, a % 4)
  }

  lemma StoreIsStep(m: Machine, m': Machine, left: bool, rs: Register, rt: Register, extra: Word)
    requires Valid(m) && Store(m, left, rs, rt, extra) == Done(m')
    ensures StoreStep(m, m', left, Address(m, rs, extra), m.regs[rt])
  {
    var a := Address(m, rs, extra);
    StoreEffect(m, left, rs, rt, extra);
    StoredHas(m.memory, WordAddress(m.table, a), left, m.regs[rt], a % 4);
  }

  /** The four bytes of a word from an address on, and nothing else in memory. */
  ghost predicate WordWritten(table: Table, a: Word, memory: seq<Byte>, memory': seq<Byte>, bytes: seq<Byte>)
    requires |memory| == |memory'| == MEMORY_SIZE && |bytes| == 4
  {
    && BytesMapped(table, a)
    && (forall k: nat | k < 4 :: memory'[ByteAddress(table, Plus(a, k))] == bytes[k])
    && (forall i: nat | i < MEMORY_SIZE && memory'[i] != memory[i] ::
          exists k: nat :: k < 4 && ByteAddress(table, Plus(a, k)) == i)
  }

  lemma StepsAreMapped(m: Machine, m1: Machine, m2: Machine, a: Word, v: Word, w: Word)
    requires StoreStep(m, m1, true, Plus(a, 3), v) && StoreStep(m1, m2, false, a, w)
    ensures PairMapped(m.table, a) && BytesMapped(m.table, a)
    ensures WordAddress(m1.table, a) == WordAddress(m.table, a)
  {
    SameWord(m.table, m1.table, a);
    forall k: nat | k < 4 ensures Translate(m.table, Plus(a, k), 1, false).Physical? { SpotsOfPair(m.table, a, k); }
  }

  /** The bytes from an address on that SWL and then SWR write. */
  function PairBytesOf(b: nat, v: Word, w: Word): seq<Byte>
    requires b < 4
  {
    seq<Byte>(4, k requires 0 <= k < 4 => WordByte(if k < 4 - b then w else v, k))
  }

  lemma StepsWriteWord(m: Machine, m1: Machine, m2: Machine, a: Word, v: Word, w: Word)
    requires StoreStep(m, m1, true, Plus(a, 3), v) && StoreStep(m1, m2, false, a, w)
    ensures WordWritten(m.table, a, m.memory, m2.memory, PairBytesOf(a % 4, v, w))
  {
    StepsAreMapped(m, m1, m2, a, v, w);
    PairSpotsApart(m.table, a);
    var p, q, b := WordAddress(m.table, a), WordAddress(m.table, Plus(a, 3)), a % 4;
    forall k: nat | k < 4
      ensures m2.memory[ByteAddress(m.table, Plus(a, k))] == WordByte(if k < 4 - b then w else v, k)
    {
      SpotsOfPair(m.table, a, k);
      PairStoresSpot(m.memory, m1.memory, m2.memory, p, q, b, v, w, k);
    }
    forall i: nat | i < MEMORY_SIZE && m2.memory[i] != m.memory[i]
      ensures exists k: nat :: k < 4 && ByteAddress(m.table, Plus(a, k)) == i
    {
      var k := WhichSpot(m.memory, m1.memory, m2.memory, p, q, b, v, w, i);
      SpotsOfPair(m.table, a, k);
    }
  }

  lemma WhichSpot(memory: seq<Byte>, r: seq<Byte>, r': seq<Byte>, p: nat, q: nat, b: nat, v: Word, w: Word, i: nat)
    returns (k: nat)
    requires p + 4 <= |memory| && q + 4 <= |memory| && b < 4 && i < |memory| && (b == 0 ==> p == q)
    requires HasStored(memory, r, q, true, v, (b + 3) % 4) && HasStored(r, r', p, false, w, b)
    requires r'[i] != memory[i]
    ensures k < 4 && i == Spot(p, q, b, k)
  {
    k := if p + b <= i < p + 4 then i - p - b else i - q + 4 - b;
  }

  /** A store leaves no load pending, so an interrupt after it changes nothing. */
  lemma StoreSettles(m: Machine, m': Machine, left: bool, rs: Register, rt: Register, extra: Word)
    requires Valid(m) && Store(m, left, rs, rt, extra) == Done(m')
    ensures Valid(m') && Interrupted(m') == m'
  {
    StoreEffect(m, left, rs, rt, extra);
    NothingPending(m');
  }

  lemma StepsCompose(m: Machine, m1: Machine, m2: Machine, a: Word, v: Word, w: Word)
    requires StoreStep(m, m1, true, Plus(a, 3), v) && StoreStep(m1, m2, false, a, w)
    ensures WordWritten(m.table, a, m.memory, m2.memory, PairBytesOf(a % 4, v, w))
    ensures SameMapping(m.table, m2.table) && m2.regs == Interrupted(m).regs && m2.loadReg == 0
  {
    StepsWriteWord(m, m1, m2, a, v, w);
    NothingPending(m1);
  }

  /** The second store of a pair finds the base register as the first did. */
  lemma PairSteps(m: Machine, m1: Machine, m2: Machine, rs: Register, rt: Register, extra: Word, a: Word)
    requires Valid(m) && Keeps(m, rs) && a == Address(m, rs, extra)
    requires Store(m, true, rs, rt, Plus(extra, 3)) == Done(m1)
    requires Valid(m1) && Store(m1, false, rs, rt, extra) == Done(m2)
    ensures StoreStep(m, m1, true, Plus(a, 3), m.regs[rt])
    ensures StoreStep(m1, m2, false, a, Interrupted(m).regs[rt])
  {
    StoreIsStep(m, m1, true, rs, rt, Plus(extra, 3));
    AddressPlus(m, rs, extra);
    SameAddress(m, m1, rs, extra);
    StoreIsStep(m1, m2, false, rs, rt, extra);
  }

  /** SWL of rt at the last of four bytes and SWR at the first, with or without
      an interrupt in between, write exactly those four bytes, at any alignment
      and through any page table.  What SWR writes is what rt holds after a load
      that was pending before SWL; if there was none, the bytes are those of rt. */
  lemma StoreUnaligned(m: Machine, m1: Machine, between: Machine, m2: Machine,
                       rs: Register, rt: Register, extra: Word, a: Word)
    requires Valid(m) && Keeps(m, rs) && IsAddress(m, rs, extra, a)
    requires Store(m, true, rs, rt, Plus(extra, 3)) == Done(m1)
    requires Valid(m1) && (between == m1 || between == Interrupted(m1))
    requires Store(between, false, rs, rt, extra) == Done(m2)
    ensures |m2.memory| == MEMORY_SIZE
    ensures WordWritten(m.table, a, m.memory, m2.memory, PairBytesOf(a % 4, m.regs[rt], Interrupted(m).regs[rt]))
    ensures SameMapping(m.table, m2.table) && m2.regs == Interrupted(m).regs && m2.loadReg == 0
  {
    AddressIs(m, rs, extra, a);
    StoreSettles(m, m1, true, rs, rt, Plus(extra, 3));
    PairSteps(m, m1, m2, rs, rt, extra, a);
    StepsCompose(m, m1, m2, a, m.regs[rt], Interrupted(m).regs[rt]);
  }

  /** Two virtual bytes share a physical one exactly if their pages share a frame
      and they have the same offset. */
  lemma SharedByteIff(table: Table, a: Word, b: Word, i: nat, j: nat)
    requires Maps(table, a / PAGE_SIZE, i) && Translate(table, a, 1, false).Physical?
    requires Maps(table, b / PAGE_SIZE, j) && Translate(table, b, 1, false).Physical?
    ensures ByteAddress(table, a) == ByteAddress(table, b) <==>
              table.entries[i].physicalPage == table.entries[j].physicalPage && a % PAGE_SIZE == b % PAGE_SIZE
  {
    var p, q := ByteAddress(table, a), ByteAddress(table, b);
    InFrame(table, a, i);
    InFrame(table, b, j);
    assert p == PAGE_SIZE * (p / PAGE_SIZE) + p % PAGE_SIZE && q == PAGE_SIZE * (q / PAGE_SIZE) + q % PAGE_SIZE;
  }

  lemma InFrame(table: Table, a: Word, i: nat)
    requires Maps(table, a / PAGE_SIZE, i) && Translate(table, a, 1, false).Physical?
    ensures Reaches(table.entries[i], a, false, ByteAddress(table, a))
  {
    PhysicalIff(table, a, 1, false, ByteAddress(table, a));
    SlotIff(table, a / PAGE_SIZE, i);
    var k: nat :| Maps(table, a / PAGE_SIZE, k) && Reaches(table.entries[k], a, false, ByteAddress(table, a));
    SlotIff(table, a / PAGE_SIZE, k);
  }

  /** A word written within one page leaves every byte of every page with another
      frame as it was. */
  lemma OtherFramesKept(table: Table, a: Word, memory: seq<Byte>, memory': seq<Byte>, bytes: seq<Byte>,
                        i: nat, x: Word, j: nat)
    requires |memory| == |memory'| == MEMORY_SIZE && |bytes| == 4 && WordWritten(table, a, memory, memory', bytes)
    requires a % PAGE_SIZE <= PAGE_SIZE - 4 && Maps(table, a / PAGE_SIZE, i)
    requires Maps(table, x / PAGE_SIZE, j) && Translate(table, x, 1, false).Physical?
    requires table.entries[i].physicalPage != table.entries[j].physicalPage
    ensures memory'[ByteAddress(table, x)] == memory[ByteAddress(table, x)]
  {
    if memory'[ByteAddress(table, x)] != memory[ByteAddress(table, x)] {
      var k: nat :| k < 4 && ByteAddress(table, Plus(a, k)) == ByteAddress(table, x);
      SamePage(a, k);
      SharedByteIff(table, Plus(a, k), x, i, j);
    }
  }

  lemma SamePage(a: Word, k: nat)
    requires k < 4 && a % PAGE_SIZE <= PAGE_SIZE - 4
    ensures Plus(a, k) / PAGE_SIZE == a / PAGE_SIZE
  {
    Remainder(a + k, PAGE_SIZE, a / PAGE_SIZE, a % PAGE_SIZE + k);
  }

  /** LWL or LWR took m to m', at address a. */
  ghost predicate LoadStep(m: Machine, m': Machine, left: bool, a: Word, rt: Register) {
    && Valid(m) && Valid(m')
    && Translate(m.table, a - a % 4, 4, false).Physical?
    && SameMapping(m.table, m'.table) && m'.memory == m.memory
    && m'.regs == Interrupted(m).regs && m'.loadReg == rt
    && HasLoaded(m.memory, m'.loadValue, WordAddress(m.table, a), left, Current(m, rt), a % 4)
  }

  lemma LoadIsStep(m: Machine, m': Machine, left: bool, rs: Register, rt: Register, extra: Word)
    requires Valid(m) && Load(m, left, rs, rt, extra) == Done(m')
    ensures LoadStep(m, m', left, Address(m, rs, extra), rt)
  {
    var a := Address(m, rs, extra);
    LoadEffect(m, left, rs, rt, extra);
    LoadedHas(m.memory, WordAddress(m.table, a), left, Current(m, rt), a % 4);
  }

  /** w is made of the four bytes from an address on. */
  ghost predicate WordRead(table: Table, a: Word, memory: seq<Byte>, w: Word)
    requires |memory| == MEMORY_SIZE
  {
    && BytesMapped(table, a)
    && (forall k: nat | k < 4 :: WordByte(w, k) == memory[ByteAddress(table, Plus(a, k))])
  }

  lemma StepsReadWord(m: Machine, m1: Machine, m2: Machine, a: Word, rt: Register)
    requires LoadStep(m, m1, false, a, rt) && LoadStep(m1, m2, true, Plus(a, 3), rt)
    ensures WordRead(m.table, a, m.memory, m2.loadValue)
  {
    SameWord(m.table, m1.table, Plus(a, 3));
    PairSpotsApart(m.table, a);
    forall k: nat | k < 4
      ensures Translate(m.table, Plus(a, k), 1, false).Physical?
      ensures WordByte(m2.loadValue, k) == m.memory[ByteAddress(m.table, Plus(a, k))]
    {
      SpotsOfPair(m.table, a, k);
      PairLoadsByte(m.memory, WordAddress(m.table, a), WordAddress(m.table, Plus(a, 3)), a % 4,
                    Current(m, rt), m1.loadValue, m2.loadValue, k);
    }
  }

  /** An interrupt between the two loads makes no difference to anything, though
      the pending load is then committed early instead of being forwarded. */
  lemma LoadInterruptible(m: Machine, rs: Register, rt: Register, extra: Word)
    requires Valid(m) && m.loadReg == rt && rt != 0 && rt != rs
    ensures Load(Interrupted(m), true, rs, rt, extra) == Load(m, true, rs, rt, extra)
  {
    var i := Interrupted(m);
    assert i.regs[rs] == m.regs[rs] && i.table == m.table && i.memory == m.memory;
    assert Current(i, rt) == m.loadValue == Current(m, rt);
    assert DelayedLoad(i, 0, 0).regs == DelayedLoad(m, 0, 0).regs;
  }

  /** LWR at the first of four bytes and LWL at the last, with or without an
      interrupt in between, leave the word made of those bytes in the delay slot
      for rt, whatever rt held or was waiting for; memory and the other
      registers stay as they are. */
  lemma LoadUnaligned(m: Machine, m1: Machine, between: Machine, m2: Machine,
                      rs: Register, rt: Register, extra: Word, a: Word)
    requires Valid(m) && Keeps(m, rs) && rt != 0 && rt != rs && IsAddress(m, rs, extra, a)
    requires Load(m, false, rs, rt, extra) == Done(m1)
    requires Valid(m1) && (between == m1 || between == Interrupted(m1))
    requires Load(between, true, rs, rt, Plus(extra, 3)) == Done(m2)
    ensures WordRead(m.table, a, m.memory, m2.loadValue)
    ensures m2.loadReg == rt && m2.memory == m.memory && Valid(m2)
    ensures forall r: Register | r != rt :: m2.regs[r] == Interrupted(m).regs[r]
  {
    AddressIs(m, rs, extra, a);
    LoadIsStep(m, m1, false, rs, rt, extra);
    LoadInterruptible(m1, rs, rt, Plus(extra, 3));
    AddressPlus(m, rs, extra);
    SameAddress(m, m1, rs, Plus(extra, 3));
    LoadIsStep(m1, m2, true, rs, rt, Plus(extra, 3));
    StepsReadWord(m, m1, m2, a, rt);
  }

  lemma BytesDetermineWord(v: Word, w: Word)
    requires WordByte(v, 0) == WordByte(w, 0) && WordByte(v, 1) == WordByte(w, 1)
    requires WordByte(v, 2) == WordByte(w, 2) && WordByte(v, 3) == WordByte(w, 3)
    ensures v == w
  {
    SplitWord(v);
    SplitWord(w);
  }

  /** The k-th byte that SWL and SWR of rt write, the first byte being byte b of
      its word: SWR writes the first ones, after a load that was pending. */
  function StoredByteOf(m: Machine, rt: Register, b: nat, k: nat): Byte
    requires Valid(m) && b < 4 && k < 4
  {
    WordByte(if k < 4 - b then Interrupted(m).regs[rt] else m.regs[rt], k)
  }

  lemma StoredThenLoaded(m: Machine, m2: Machine, m4: Machine,
                         source: Register, target: Register, a: Word, k: nat)
    requires Valid(m) && Valid(m2) && Valid(m4) && target != 0 && k < 4
    requires WordWritten(m.table, a, m.memory, m2.memory,
                         PairBytesOf(a % 4, m.regs[source], Interrupted(m).regs[source]))
    requires SameMapping(m.table, m2.table) && m2.regs == Interrupted(m).regs
    requires WordRead(m2.table, a, m2.memory, m4.loadValue) && m4.loadReg == target
    ensures WordByte(Interrupted(m4).regs[target], k) == StoredByteOf(m, source, a % 4, k)
  {
    SameBytes(m.table, m2.table, a, k);
  }

  lemma WordStoredThenLoaded(m: Machine, m2: Machine, m4: Machine, source: Register, target: Register, a: Word)
    requires Valid(m) && Valid(m2) && Valid(m4) && target != 0
    requires WordWritten(m.table, a, m.memory, m2.memory,
                         PairBytesOf(a % 4, m.regs[source], Interrupted(m).regs[source]))
    requires SameMapping(m.table, m2.table) && m2.regs == Interrupted(m).regs
    requires WordRead(m2.table, a, m2.memory, m4.loadValue) && m4.loadReg == target
    ensures forall k: nat | k < 4 ::
              WordByte(Interrupted(m4).regs[target], k) == StoredByteOf(m, source, a % 4, k)
    ensures Interrupted(m4).regs[target] == m.regs[source] <==> PairIntact(m, source, a % 4)
  {
    forall k: nat | k < 4
      ensures WordByte(Interrupted(m4).regs[target], k) == StoredByteOf(m, source, a % 4, k)
    { StoredThenLoaded(m, m2, m4, source, target, a, k); }
    IntactIff(m, source, a % 4, Interrupted(m4).regs[target]);
  }

  /** The base register has its value, so the address is the same. */
  lemma StillAddress(m: Machine, m': Machine, rs: Register, extra: Word, a: Word)
    requires Valid(m) && Valid(m') && Keeps(m, rs) && m'.regs == Interrupted(m).regs && IsAddress(m, rs, extra, a)
    ensures IsAddress(m', rs, extra, a)
  {
  }

  /** Nothing is pending after a store. */
  lemma StillKept(m: Machine, rs: Register)
    requires Valid(m) && m.loadReg == 0
    ensures Keeps(m, rs)
  {
  }

  /** What SWL and SWR store, LWR and LWL load back, byte for byte, at any
      alignment, with interrupts wherever they may come, and whatever load is
      pending into the register stored. */
  lemma UnalignedRoundTrip(m: Machine, m1: Machine, m1': Machine, m2: Machine, m3: Machine, m3': Machine, m4: Machine,
                           rs: Register, source: Register, target: Register, extra: Word, a: Word)
    requires Valid(m) && Keeps(m, rs) && IsAddress(m, rs, extra, a) && target != 0 && target != rs
    requires Store(m, true, rs, source, Plus(extra, 3)) == Done(m1)
    requires Valid(m1) && (m1' == m1 || m1' == Interrupted(m1))
    requires Store(m1', false, rs, source, extra) == Done(m2) && Valid(m2)
    requires Load(m2, false, rs, target, extra) == Done(m3)
    requires Valid(m3) && (m3' == m3 || m3' == Interrupted(m3))
    requires Load(m3', true, rs, target, Plus(extra, 3)) == Done(m4)
    ensures Valid(m4)
    ensures forall k: nat | k < 4 ::
              WordByte(Interrupted(m4).regs[target], k) == StoredByteOf(m, source, a % 4, k)
    ensures Interrupted(m4).regs[target] == m.regs[source] <==> PairIntact(m, source, a % 4)
  {
    StoreUnaligned(m, m1, m1', m2, rs, source, extra, a);
    StillAddress(m, m2, rs, extra, a);
    StillKept(m2, rs);
    LoadUnaligned(m2, m3, m3', m4, rs, target, extra, a);
    WordStoredThenLoaded(m, m2, m4, source, target, a);
  }

  /** A load that is pending into rt does not change the bytes that SWR writes. */
  ghost predicate PairIntact(m: Machine, rt: Register, b: nat)
    requires Valid(m) && b < 4
  {
    forall k: nat | k < 4 - b :: WordByte(Interrupted(m).regs[rt], k) == WordByte(m.regs[rt], k)
  }

  lemma IntactIff(m: Machine, rt: Register, b: nat, w: Word)
    requires Valid(m) && b < 4
    requires forall k: nat | k < 4 :: WordByte(w, k) == StoredByteOf(m, rt, b, k)
    ensures w == m.regs[rt] <==> PairIntact(m, rt, b)
  {
    if PairIntact(m, rt, b) {
      forall k: nat | k < 4 ensures WordByte(w, k) == WordByte(m.regs[rt], k) {
        assert WordByte(w, k) == StoredByteOf(m, rt, b, k);
      }
      BytesDetermineWord(w, m.regs[rt]);
    } else {
      var k: nat :| k < 4 - b && WordByte(Interrupted(m).regs[rt], k) != WordByte(m.regs[rt], k);
      assert WordByte(w, k) == StoredByteOf(m, rt, b, k);
    }
  }

  /** The pair stores the word that rt holds before it exactly if the bytes that
      SWR writes agree with what rt holds once the pending load is in: always
      when none is pending for rt, and for an aligned address only if the load
      brings the value rt has already. */
  lemma PairStoresWordIff(m: Machine, rt: Register, b: nat)
    requires Valid(m) && b < 4
    ensures PairIntact(m, rt, b) <==>
              PairBytesOf(b, m.regs[rt], Interrupted(m).regs[rt]) == PairBytesOf(b, m.regs[rt], m.regs[rt])
    ensures Settled(m, rt) ==> PairIntact(m, rt, b)
    ensures b == 0 ==> (PairIntact(m, rt, b) <==> Interrupted(m).regs[rt] == m.regs[rt])
  {
    var v, w := m.regs[rt], Interrupted(m).regs[rt];
    var mixed, whole := PairBytesOf(b, v, w), PairBytesOf(b, v, v);
    if PairIntact(m, rt, b) {
      assert forall k: nat | k < 4 :: mixed[k] == whole[k];
      if b == 0 { BytesDetermineWord(v, w); }
    } else {
      var k: nat :| k < 4 - b && WordByte(w, k) != WordByte(v, k);
      assert mixed[k] != whole[k];
    }
    if Settled(m, rt) { SettledStays(m, rt); }
  }

  /** Register 8 holds 0 and waits for a word of ones; page 0 is mapped to frame 0. */
  function MixingMachine(): (m: Machine)
    ensures Valid(m)
  {
    Machine(seq(32, _ => 0), 8, 0xffff_ffff, seq<Byte>(MEMORY_SIZE, _ => 0),
            PageTable([Entry(0, 0, true, false, false, false)]))
  }

  lemma StoreRuns(m: Machine, left: bool, rs: Register, rt: Register, extra: Word, a: Word) returns (m': Machine)
    requires Valid(m) && a == Address(m, rs, extra) && Translate(m.table, a - a % 4, 4, true).Physical?
    ensures Store(m, left, rs, rt, extra) == Done(m') && StoreStep(m, m', left, a, m.regs[rt])
  {
    StoreTrapsIff(m, left, rs, rt, extra, a);
    m' := Store(m, left, rs, rt, extra).m;
    StoreIsStep(m, m', left, rs, rt, extra);
  }

  /** The second store of a pair goes through if its word can be written. */
  lemma SecondStoreRuns(m: Machine, m1: Machine, rs: Register, rt: Register, extra: Word, a: Word) returns (m2: Machine)
    requires Valid(m) && Keeps(m, rs) && a == Address(m, rs, extra)
    requires StoreStep(m, m1, true, Plus(a, 3), m.regs[rt]) && Translate(m.table, a - a % 4, 4, true).Physical?
    ensures Store(m1, false, rs, rt, extra) == Done(m2) && StoreStep(m1, m2, false, a, Interrupted(m).regs[rt])
  {
    SameAddress(m, m1, rs, extra);
    SameTranslation(m.table, m1.table, a - a % 4, 4, true);
    m2 := StoreRuns(m1, false, rs, rt, extra, a);
  }

  lemma MixingBytes(v: Word, w: Word, k: nat)
    requires v == 0 && w == 0xffff_ffff && k < 4
    ensures PairBytesOf(1, v, w)[k] == if k < 3 then 255 else 0
  {
    assert w == Join(255, 255, 255, 255);
    JoinByte(255, 255, 255, 255, k);
    assert v == Join(0, 0, 0, 0);
    JoinByte(0, 0, 0, 0, k);
  }

  lemma MixingMaps(table: Table, a: Word)
    requires table == MixingMachine().table && a < PAGE_SIZE && a % 4 == 0
    ensures Translate(table, a, 4, true) == Physical(a)
  {
  }

  lemma MixedMemory(table: Table, memory: seq<Byte>, memory': seq<Byte>, v: Word, w: Word, a: Word, k: nat)
    requires |memory| == |memory'| == MEMORY_SIZE && table == MixingMachine().table && k < 4
    requires v == 0 && w == 0xffff_ffff && a == 1
    requires WordWritten(table, a, memory, memory', PairBytesOf(1, v, w))
    ensures memory'[1 + k] == if k < 3 then 255 else 0
  {
    assert Translate(table, Plus(a, k), 1, false) == Physical(1 + k);
    MixingBytes(v, w, k);
  }

  /** Stored at address 1, the word in memory is neither: three bytes are ones, the
      last is zero. */
  lemma PairStoresMixture(m: Machine, rs: Register, rt: Register, extra: Word) returns (m1: Machine, m2: Machine)
    requires m == MixingMachine() && rs == 0 && rt == 8 && extra == 1
    ensures Store(m, true, rs, rt, Plus(extra, 3)) == Done(m1) && Valid(m1)
    ensures Store(m1, false, rs, rt, extra) == Done(m2) && Valid(m2)
    ensures m2.memory[1] == m2.memory[2] == m2.memory[3] == 255 && m2.memory[4] == 0
  {
    var a := Address(m, rs, extra);
    var v, w := m.regs[rt], Interrupted(m).regs[rt];
    AddressPlus(m, rs, extra);
    MixingMaps(m.table, a - a % 4);
    MixingMaps(m.table, Plus(a, 3) - Plus(a, 3) % 4);
    m1 := StoreRuns(m, true, rs, rt, Plus(extra, 3), Plus(a, 3));
    m2 := SecondStoreRuns(m, m1, rs, rt, extra, a);
    StepsWriteWord(m, m1, m2, a, v, w);
    MixedMemory(m.table, m.memory, m2.memory, v, w, a, 0);
    MixedMemory(m.table, m.memory, m2.memory, v, w, a, 1);
    MixedMemory(m.table, m.memory, m2.memory, v, w, a, 2);
    MixedMemory(m.table, m.memory, m2.memory, v, w, a, 3);
  }
}
