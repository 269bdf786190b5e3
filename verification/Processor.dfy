/** The code of the unaligned loads and stores: the register file and memory as
    arrays that instructions change in place (machine/mipssim.cc,
    machine/translate.cc). */
module Processors {
  import opened Bytes
  import opened Machines
  import opened Wrappers

  const LOAD_REG := 37
  const LOAD_VALUE_REG := 38
  const NUM_TOTAL_REGS := 40

  /** How an instruction ended, from what it reports and the machine it leaves. */
  function Ended(trap: Option<Exception>, m: Machine): Outcome {
    match trap
    case None => Done(m)
    case Some(e) => Trap(e, m)
  }

  class Processor {
    const registers: array<Word>
    const mainMemory: array<Byte>
    var table: Table

    ghost predicate WellFormed()
      reads this, registers, mainMemory
    {
      && registers.Length == NUM_TOTAL_REGS && mainMemory.Length == MEMORY_SIZE
      && (registers as object) != mainMemory
      && registers[0] == 0 && registers[37] < 32
      && (table.Tlb? ==> |table.entries| == TLB_SIZE)
    }

    ghost function Abs(): (m: Machine)
      requires WellFormed()
      reads this, registers, mainMemory
      ensures Valid(m)
    {
      Machine(registers[..32], registers[37], registers[38], mainMemory[..], table)
    }

    /** All registers and all of memory start at zero. */
    constructor (table: Table)
      requires table.Tlb? ==> |table.entries| == TLB_SIZE
      ensures WellFormed() && this.table == table && fresh(registers) && fresh(mainMemory)
      ensures Abs().loadReg == 0 && Abs().loadValue == 0
      ensures forall r: Register :: Abs().regs[r] == 0
      ensures forall i | 0 <= i < MEMORY_SIZE :: Abs().memory[i] == 0
    {
      registers := new Word[NUM_TOTAL_REGS](_ => 0);
      mainMemory := new Byte[MEMORY_SIZE](_ => 0);
      this.table := table;
    }

    /** `Translate`, which sets the use and dirty bits of the entry it finds. */
    method TranslateAddress(virtAddr: Word, size: nat, writing: bool) returns (t: Translation)
      requires table.Tlb? ==> |table.entries| == TLB_SIZE
      modifies `table
      ensures t == Translate(old(table), virtAddr, size, writing)
      ensures table == if t.Physical? then Touched(old(table), virtAddr, writing) else old(table)
      ensures table.Tlb? ==> |table.entries| == TLB_SIZE
    {
      if (size == 4 && virtAddr % 4 != 0) || (size == 2 && virtAddr % 2 != 0) {
        return Fault(AddressError);
      }
      var vpn, offset := virtAddr / PAGE_SIZE, virtAddr % PAGE_SIZE;
      var i: nat;
      if table.PageTable? {
        if vpn >= |table.entries| { return Fault(AddressError); }
        if !table.entries[vpn].valid { return Fault(PageFault); }
        i := vpn;
      } else {
        i := 0;
        while i < TLB_SIZE && !(table.entries[i].valid && table.entries[i].virtualPage == vpn)
          invariant i <= TLB_SIZE
          invariant FindEntry(table.entries, vpn, i) == FindEntry(table.entries, vpn, 0)
        {
          i := i + 1;
        }
        if i == TLB_SIZE { return Fault(PageFault); }
      }
      var entry := table.entries[i];
      if entry.readOnly && writing { return Fault(ReadOnly); }
      if !(0 <= entry.physicalPage < NUM_PHYS_PAGES) { return Fault(BusError); }
      table := table.(entries := table.entries[i := entry.(use := true, dirty := entry.dirty || writing)]);
      t := Physical(entry.physicalPage * PAGE_SIZE + offset);
    }

    method CommitLoad(nextReg: Register, nextValue: Word)
      requires WellFormed()
      modifies registers
      ensures WellFormed() && Abs() == DelayedLoad(old(Abs()), nextReg, nextValue)
    {
      registers[registers[LOAD_REG]] := registers[LOAD_VALUE_REG];
      registers[LOAD_REG] := nextReg;
      registers[LOAD_VALUE_REG] := nextValue;
      registers[0] := 0;
      assert Abs().regs == DelayedLoad(old(Abs()), nextReg, nextValue).regs;
    }

    method ReadWord(p: nat) returns (value: Word)
      requires WellFormed() && p + 4 <= MEMORY_SIZE
      ensures value == WordAt(Abs().memory, p)
    {
      var b0: int, b1: int, b2: int, b3: int :=
        mainMemory[p], mainMemory[p + 1], mainMemory[p + 2], mainMemory[p + 3];
      value := b0 + 0x100 * b1 + 0x1_0000 * b2 + 0x100_0000 * b3;
    }

    method PutWord(p: nat, w: Word)
      requires WellFormed() && p + 4 <= MEMORY_SIZE
      modifies mainMemory
      ensures WellFormed() && Abs() == old(Abs()).(memory := WriteWord(old(Abs()).memory, p, w))
    {
      mainMemory[p] := WordByte(w, 0);
      mainMemory[p + 1] := WordByte(w, 1);
      mainMemory[p + 2] := WordByte(w, 2);
      mainMemory[p + 3] := WordByte(w, 3);
      assert Abs().memory == WriteWord(old(Abs()).memory, p, w);
    }

    /** `ReadMem` of a word. */
    method FetchWord(a: Word) returns (t: Translation, value: Word)
      requires WellFormed()
      modifies `table
      ensures WellFormed() && t == Translate(old(table), a, 4, false)
      ensures Abs() == old(Abs()).(table := if t.Physical? then Touched(old(table), a, false) else old(table))
      ensures t.Physical? ==> t.address + 4 <= MEMORY_SIZE && value == WordAt(old(Abs()).memory, t.address)
    {
      value := 0;
      t := TranslateAddress(a, 4, false);
      if t.Physical? {
        WordInPage(old(table), a, false, 0);
        value := ReadWord(t.address);
      }
    }

    /** LWL and LWR. */
    method ExecuteLoad(left: bool, rs: Register, rt: Register, extra: Word) returns (trap: Option<Exception>)
      requires WellFormed()
      modifies `table, registers
      ensures WellFormed()
      ensures Load(old(Abs()), left, rs, rt, extra) == Ended(trap, Abs())
    {
      var tmp := Plus(registers[rs], extra);
      var byte := tmp % 4;
      var t, value := FetchWord(tmp - byte);
      if t.Fault? {
        CommitLoad(0, 0);
        return Some(t.exception);
      }
      var nextLoadValue := if registers[LOAD_REG] == rt then registers[LOAD_VALUE_REG] else registers[rt];
      CommitLoad(rt, MergedLoad(left, nextLoadValue, value, byte));
      trap := None;
    }

    /** SWL and SWR. */
    method ExecuteStore(left: bool, rs: Register, rt: Register, extra: Word) returns (trap: Option<Exception>)
      requires WellFormed()
      modifies `table, registers, mainMemory
      ensures WellFormed()
      ensures Store(old(Abs()), left, rs, rt, extra) == Ended(trap, Abs())
    {
      var tmp := Plus(registers[rs], extra);
      var byte := tmp % 4;
      ghost var m := Abs();
      var t, value := FetchWord(tmp - byte);
      StoreBegins(m, Abs(), left, rs, rt, extra, tmp, t, value);
      if t.Fault? {
        CommitLoad(0, 0);
        trap := Some(t.exception);
      } else {
        value := MergedStore(left, value, registers[rt], byte);
        trap := FinishStore(tmp - byte, value);
      }
    }

    method FinishStore(a: Word, w: Word) returns (trap: Option<Exception>)
      requires WellFormed()
      modifies `table, registers, mainMemory
      ensures WellFormed()
      ensures StoreWord(old(Abs()), a, w) == Ended(trap, Abs())
    {
      var t := TranslateAddress(a, 4, true);
      if t.Fault? {
        CommitLoad(0, 0);
        return Some(t.exception);
      }
      WordInPage(old(table), a, true, 0);
      PutWord(t.address, w);
      CommitLoad(0, 0);
      trap := None;
    }
  }
}
