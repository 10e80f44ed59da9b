/**
  The CPU as the simulator runs it: one object whose fields each instruction updates, over a
  memory object.  Every method is proved to do what the functions of `Cpu` say.
 */
module CpuMachine {
  import opened Ast
  import opened Words
  import opened Memory
  import C = Cpu
  import opened Cpu

  class HvmCpu {
    var regs: Regs
    var pc: u64
    var loopCount: u64
    var loopBackedge: u64
    var reservationAddr: u64
    var reservationValid: bool
    var vl: u64
    var vtype: u64
    var vstate: u64
    var vregs: VRegs
    var csr: Csrs
    var supervisor: bool
    var trapPending: bool
    const mem: MemorySystem

    ghost predicate Valid()
      reads this, mem
    {
      mem.Valid() && mem.handlers == {}
    }

    ghost function Value(): State
      requires Valid()
      reads this, mem
    {
      State(regs, pc, loopCount, loopBackedge, reservationAddr, reservationValid, vl, vtype, vstate, vregs,
            csr, supervisor, trapPending, mem.regions)
    }

    constructor (m: MemorySystem)
      requires m.Valid() && m.handlers == {}
      ensures Valid() && mem == m && regs == seq(32, i => 0) && pc == 0 && !reservationValid && !trapPending
    {
      regs, pc, loopCount, loopBackedge := seq(32, i => 0), 0, 0, 0;
      reservationAddr, reservationValid := 0, false;
      vl, vtype, vstate, vregs := 0, 0, 0, seq<Lanes>(32, i => ZERO_LANES);
      csr := Csrs(Status(false, false, false), 0, 0, 0, 0, 0, 0, 0);
      supervisor, trapPending := false, false;
      mem := m;
    }

    /** Exceptions become a result: true when the instruction threw. */
    ghost predicate Matches(o: Outcome, threw: bool)
      requires Valid()
      reads this, mem
    {
      match o
      case Ran(s) => !threw && Value() == s
      case Threw(s) => threw && Value() == s
    }

    // ---- registers ----

    function ReadReg(r: Reg): (v: u64)
      reads this
    {
      if r == 0 then 0 else regs[r]
    }

    method WriteReg(r: Reg, v: u64)
      requires Valid()
      modifies this
      ensures Valid() && Value() == C.WriteReg(old(Value()), r, v)
    {
      if r != 0 { regs := regs[r := v]; }
    }

    method Advance(di: Decoded)
      requires Valid()
      modifies this`pc
      ensures Valid() && Value() == Next(old(Value()), di)
    {
      pc := (pc + if di.isEscape then 8 else 4) % TWO64;
    }

    method SignalTrap(cause: u64, tval: u64)
      requires Valid()
      modifies this
      ensures Valid() && Value() == C.SignalTrap(old(Value()), cause, tval)
    {
      hide Wrap; hide Sized;
      var status := csr.sstatus;
      status := status.(spie := status.sie);
      status := status.(sie := false);
      status := status.(spp := supervisor);
      csr := csr.(sepc := pc, scause := cause, stval := tval, sstatus := status);
      supervisor := true;
      trapPending := true;
      var base := csr.stvec - csr.stvec % 4;
      pc := if csr.stvec % 4 == 1
            then Wrap(base + (if cause >= TWO64 / 2 then (cause - TWO64 / 2 + 16) * 4 else cause * 4))
            else base;
    }

    method TickTimer()
      requires Valid()
      modifies this
      ensures Valid() && Value() == C.TickTimer(old(Value()))
    {
      csr := csr.(stime := (csr.stime + 1) % TWO64);
      if csr.stime >= csr.stimecmp && csr.sstatus.sie {
        SignalTrap(0x8000_0000_0000_0000, 0);
      }
    }

    // ---- memory ----

    method ReadDword(addr: u64) returns (v: Access<u64>)
      requires Valid()
      ensures v == ReadMem(mem.regions, addr, 8)
    {
      var w := mem.ReadDword(addr);
      if w.Fault? { return Fault(w.fault); }
      LeOfFromLe(Load(mem.regions, addr, 8).value);
      Pow256Values();
      var word: u64 := w.value;
      v := Done(word);
    }

    method WriteDword(addr: u64, val: u64) returns (threw: bool)
      requires Valid()
      modifies mem`regions
      ensures Valid()
      ensures match WriteMem(old(mem.regions), addr, val, 8)
              case Done(m) => !threw && mem.regions == m
              case Fault(_) => threw && mem.regions == old(mem.regions)
    {
      var f := mem.WriteDword(addr, val);
      threw := f.Some?;
    }

    method ReadWidth(addr: u64, width: nat) returns (v: Access<u64>)
      requires Valid() && width in {1, 2, 4, 8}
      ensures v == ReadMem(mem.regions, addr, width)
    {
      var w: Access<nat>;
      if width == 1 {
        var b := mem.ReadByte(addr);
        return if b.Done? then Done(b.value) else Fault(OutOfRange);
      } else if width == 2 {
        w := mem.ReadHalf(addr);
      } else if width == 4 {
        w := mem.ReadWord(addr);
      } else {
        w := mem.ReadDword(addr);
      }
      if w.Fault? { return Fault(w.fault); }
      LeOfFromLe(Load(mem.regions, addr, width).value);
      Pow256Values();
      var word: u64 := w.value;
      v := Done(word);
    }

    method WriteWidth(addr: u64, val: u64, width: nat) returns (threw: bool)
      requires Valid() && width in {1, 2, 4, 8}
      modifies mem`regions
      ensures Valid()
      ensures match WriteMem(old(mem.regions), addr, val, width)
              case Done(m) => !threw && mem.regions == m
              case Fault(_) => threw && mem.regions == old(mem.regions)
    {
      var f: Option<MemFault>;
      if width == 1 {
        var handled;
        f, handled := mem.WriteByte(addr, val % 256);
      } else if width == 2 {
        f := mem.WriteHalf(addr, val);
      } else if width == 4 {
        f := mem.WriteWord(addr, val);
      } else {
        f := mem.WriteDword(addr, val);
      }
      threw := f.Some?;
    }

    // ---- loads and stores ----

    method ExecuteLoad(di: Decoded, width: nat, signed: bool) returns (threw: bool)
      requires Valid() && width in {1, 2, 4, 8}
      modifies this
      ensures Valid() && Matches(ExecLoad(old(Value()), di, width, signed), threw)
    {
      hide ReadMem; hide WriteMem; hide Sized; hide SignExtend; hide C.SignalTrap;
      var addr := (ReadReg(di.rs1) + di.imm) % TWO64;
      var v := ReadWidth(addr, width);
      if v.Fault? { return true; }
      WriteReg(di.rd, if signed then SignExtend(v.value, width) else v.value);
      Advance(di);
      threw := false;
    }

    method ExecuteStore(di: Decoded, size: nat) returns (threw: bool)
      requires Valid() && size in {1, 2, 4, 8}
      modifies this, mem
      ensures Valid() && Matches(ExecStore(old(Value()), di, size), threw)
    {
      hide ReadMem; hide WriteMem; hide Sized; hide SignExtend; hide C.SignalTrap;
      var addr := (ReadReg(di.rs1) + di.imm) % TWO64;
      threw := WriteWidth(addr, ReadReg(di.rd), size);
      if !threw { Advance(di); }
    }

    method ExecuteLoadPair(di: Decoded) returns (threw: bool)
      requires Valid()
      modifies this
      ensures Valid() && Matches(ExecLoadPair(old(Value()), di), threw)
    {
      hide ReadMem; hide WriteMem; hide Sized; hide SignExtend; hide C.SignalTrap;
      var addr := ReadReg(di.rs2);
      var v := ReadDword(addr);
      if v.Fault? { return true; }
      WriteReg(di.rd, v.value);
      v := ReadDword((addr + 8) % TWO64);
      if v.Fault? { return true; }
      WriteReg(di.rs1, v.value);
      Advance(di);
      threw := false;
    }

    method ExecuteStorePair(di: Decoded) returns (threw: bool)
      requires Valid()
      modifies this, mem
      ensures Valid() && Matches(ExecStorePair(old(Value()), di), threw)
    {
      hide ReadMem; hide WriteMem; hide Sized; hide SignExtend; hide C.SignalTrap;
      var addr := ReadReg(di.rs2);
      threw := WriteDword(addr, ReadReg(di.rd));
      if threw { return; }
      threw := WriteDword((addr + 8) % TWO64, ReadReg(di.rs1));
      if threw { return; }
      Advance(di);
    }

    method ExecuteLoadNonZero(di: Decoded) returns (threw: bool)
      requires Valid()
      modifies this
      ensures Valid() && Matches(ExecLoadNonZero(old(Value()), di), threw)
    {
      hide ReadMem; hide WriteMem; hide Sized; hide SignExtend; hide C.SignalTrap;
      threw := false;
      var addr := ReadReg(di.rs1);
      if addr == 0 {
        SignalTrap(9, pc);
      } else {
        var v := ReadDword((addr + di.imm) % TWO64);
        if v.Fault? { return true; }
        WriteReg(di.rd, v.value);
        Advance(di);
      }
    }

    // ---- stack ----

    method ExecutePush(di: Decoded) returns (threw: bool)
      requires Valid()
      modifies this, mem
      ensures Valid() && Matches(ExecPush(old(Value()), di), threw)
    {
      hide ReadMem; hide WriteMem; hide Sized; hide SignExtend; hide C.SignalTrap;
      WriteReg(31, (ReadReg(31) - 8) % TWO64);
      threw := WriteDword(ReadReg(31), ReadReg(di.rd));
      if !threw { Advance(di); }
    }

    method ExecutePop(di: Decoded) returns (threw: bool)
      requires Valid()
      modifies this
      ensures Valid() && Matches(ExecPop(old(Value()), di), threw)
    {
      hide ReadMem; hide WriteMem; hide Sized; hide SignExtend; hide C.SignalTrap;
      var v := ReadDword(ReadReg(31));
      if v.Fault? { return true; }
      WriteReg(di.rd, v.value);
      WriteReg(31, (ReadReg(31) + 8) % TWO64);
      Advance(di);
      threw := false;
    }

    method ExecuteEnter(di: Decoded) returns (threw: bool)
      requires Valid()
      modifies this, mem
      ensures Valid() && Matches(ExecEnter(old(Value()), di), threw)
    {
      hide ReadMem; hide WriteMem; hide Sized; hide SignExtend; hide C.SignalTrap;
      var sp := ReadReg(31);
      sp := (sp - 16) % TWO64;
      threw := WriteDword(sp, ReadReg(29));
      if threw { return; }
      threw := WriteDword((sp + 8) % TWO64, ReadReg(30));
      if threw { return; }
      WriteReg(30, sp);
      sp := (sp - di.imm) % TWO64;
      WriteReg(31, sp);
      Advance(di);
    }

    method ExecuteLeave(di: Decoded) returns (threw: bool)
      requires Valid()
      modifies this
      ensures Valid() && Matches(ExecLeave(old(Value()), di), threw)
    {
      hide ReadMem; hide WriteMem; hide Sized; hide SignExtend; hide C.SignalTrap;
      var sp := ReadReg(30);
      var v := ReadDword(sp);
      if v.Fault? { return true; }
      WriteReg(29, v.value);
      v := ReadDword((sp + 8) % TWO64);
      if v.Fault? { return true; }
      WriteReg(30, v.value);
      WriteReg(31, (sp + 16) % TWO64);
      Advance(di);
      threw := false;
    }

    // ---- atomics ----

    method ExecuteLoadReserved(di: Decoded) returns (threw: bool)
      requires Valid()
      modifies this
      ensures Valid() && Matches(ExecLoadReserved(old(Value()), di), threw)
    {
      hide ReadMem; hide WriteMem; hide Sized; hide SignExtend; hide C.SignalTrap;
      var addr := ReadReg(di.rs1);
      var v := ReadDword(addr);
      if v.Fault? { return true; }
      WriteReg(di.rd, v.value);
      reservationAddr := addr;
      reservationValid := true;
      Advance(di);
      threw := false;
    }

    method ExecuteStoreConditional(di: Decoded) returns (threw: bool)
      requires Valid()
      modifies this, mem
      ensures Valid() && Matches(ExecStoreConditional(old(Value()), di), threw)
    {
      hide ReadMem; hide WriteMem; hide Sized; hide SignExtend; hide C.SignalTrap;
      threw := false;
      var addr := ReadReg(di.rs1);
      if reservationValid && reservationAddr == addr {
        threw := WriteDword(addr, ReadReg(di.rs2));
        if threw { return; }
        WriteReg(di.rd, 0);
        reservationValid := false;
      } else {
        WriteReg(di.rd, 1);
      }
      Advance(di);
    }

    // ---- vectors ----

    function LaneAddress(di: Decoded, mode: VMode, i: nat): u64
      requires i < 4
      reads this
    {
      match mode
      case Unit => (ReadReg(di.rs2) + i * 8) % TWO64
      case Strided => (ReadReg(di.rs2) + ReadReg(di.rs1) * i) % TWO64
      case Indexed => (ReadReg(di.rs2) + vregs[di.rs1][i]) % TWO64
    }

    method LoadLane(di: Decoded, mode: VMode, i: nat) returns (threw: bool)
      requires Valid() && i < 4
      modifies this
      ensures Valid()
      ensures match ReadMem(old(Value()).mem, LaneAddr(old(Value()), di, mode, i), 8)
              case Done(v) => !threw && Value() == SetLane(old(Value()), di.rd, i, v)
              case Fault(_) => threw && Value() == old(Value())
    {
      hide ReadMem; hide Sized;
      var v := ReadDword(LaneAddress(di, mode, i));
      if v.Fault? { return true; }
      var lanes: Lanes := vregs[di.rd][i := v.value];
      vregs := vregs[di.rd := lanes];
      threw := false;
    }

    method ExecuteVLoad(di: Decoded, mode: VMode) returns (threw: bool)
      requires Valid()
      modifies this
      ensures Valid() && Matches(Finish(VLoadFrom(old(Value()), di, mode, 0, C.Active(old(Value()))), di), threw)
    {
      hide ReadMem; hide Sized; hide SetLane; hide LaneAddr;
      var active := if vl > 4 then 4 else vl;
      ghost var result := VLoadFrom(Value(), di, mode, 0, active);
      for i := 0 to active
        invariant Valid() && VLoadFrom(Value(), di, mode, i, active) == result
      {
        threw := LoadLane(di, mode, i);
        if threw { return; }
      }
      Advance(di);
      threw := false;
    }

    method StoreLane(di: Decoded, mode: VMode, i: nat) returns (threw: bool)
      requires Valid() && i < 4
      modifies mem`regions
      ensures Valid()
      ensures match WriteMem(old(Value()).mem, LaneAddr(old(Value()), di, mode, i), old(Value()).vregs[di.rd][i], 8)
              case Done(m) => !threw && Value() == old(Value()).(mem := m)
              case Fault(_) => threw && Value() == old(Value())
    {
      hide WriteMem; hide Sized;
      threw := WriteDword(LaneAddress(di, mode, i), vregs[di.rd][i]);
    }

    method ExecuteVStore(di: Decoded, mode: VMode) returns (threw: bool)
      requires Valid()
      modifies this, mem
      ensures Valid() && Matches(Finish(VStoreFrom(old(Value()), di, mode, 0, C.Active(old(Value()))), di), threw)
    {
      hide WriteMem; hide Sized; hide LaneAddr;
      var active := if vl > 4 then 4 else vl;
      ghost var result := VStoreFrom(Value(), di, mode, 0, active);
      for i := 0 to active
        invariant Valid() && VStoreFrom(Value(), di, mode, i, active) == result
      {
        threw := StoreLane(di, mode, i);
        if threw { return; }
      }
      Advance(di);
      threw := false;
    }

    method ExecuteVSetVl(di: Decoded)
      requires Valid()
      modifies this
      ensures Valid() && Value() == ExecVSetVl(old(Value()), di)
    {
      var avl := ReadReg(di.rs1);
      var newVtype := ReadReg(di.rs2);
      var newVl := if avl < 4 then avl else 4;
      vl := newVl;
      vtype := newVtype;
      vstate := 2;
      WriteReg(di.rd, newVl);
      Advance(di);
    }

    // ---- loops, control registers, control flow ----

    method ExecuteLoopDecBr(di: Decoded)
      requires Valid()
      modifies this
      ensures Valid() && Value() == ExecLoopDecBr(old(Value()), di)
    {
      if loopCount != 0 {
        loopCount := loopCount - 1;
        if loopCount != 0 {
          pc := (pc + di.imm * 4) % TWO64;
          return;
        }
      }
      Advance(di);
    }

    method ExecuteCsrSwap(di: Decoded)
      requires Valid()
      modifies this
      ensures Valid() && Value() == ExecCsrSwap(old(Value()), di)
    {
      var addr := di.imm % 0x1000;
      var previous := ReadCsr(csr, addr);
      if di.rs1 != 0 {
        csr := WriteCsr(csr, addr, ReadReg(di.rs1));
      }
      WriteReg(di.rd, previous);
      Advance(di);
    }

    method ExecuteJumpLink(di: Decoded, size: nat)
      requires Valid()
      modifies this
      ensures Valid() && Value() == ExecJumpLink(old(Value()), di, size)
    {
      hide Sized;
      var ra := (pc + size) % TWO64;
      var target := (pc + di.imm * 4) % TWO64;
      WriteReg(di.rd, ra);
      pc := target;
    }

    method ExecuteJumpLinkReg(di: Decoded)
      requires Valid()
      modifies this
      ensures Valid() && Value() == ExecJumpLinkReg(old(Value()), di)
    {
      hide Sized;
      var ra := (pc + 4) % TWO64;
      WriteReg(di.rd, ra);
      var a := (ReadReg(di.rs1) + di.imm) % TWO64;
      pc := a - a % 4;
    }

    // ---- one instruction, one step ----

    method ExecuteAccess(di: Decoded) returns (threw: bool)
      requires Valid() && WellFormed(di) && Accesses(di.kind)
      modifies this, mem
      ensures Valid() && Matches(Exec(old(Value()), di), threw)
    {
      hide Exec; hide ExecLoad; hide ExecStore; hide ExecLoadPair; hide ExecStorePair; hide ExecLoadNonZero;
      hide ExecPush; hide ExecPop; hide ExecEnter; hide ExecLeave; hide ExecLoadReserved; hide ExecStoreConditional;
      hide Finish; hide VLoadFrom; hide VStoreFrom; hide Sized;
      AccessIs(Value(), di);
      match di.kind
      case LoadInst(width, signed) => threw := ExecuteLoad(di, width, signed);
      case StoreInst(size) => threw := ExecuteStore(di, size);
      case LoadPair => threw := ExecuteLoadPair(di);
      case StorePair => threw := ExecuteStorePair(di);
      case LoadNonZero => threw := ExecuteLoadNonZero(di);
      case Push => threw := ExecutePush(di);
      case Pop => threw := ExecutePop(di);
      case Enter => threw := ExecuteEnter(di);
      case Leave => threw := ExecuteLeave(di);
      case LoadReserved => threw := ExecuteLoadReserved(di);
      case StoreConditional => threw := ExecuteStoreConditional(di);
      case VLoad(mode) => threw := ExecuteVLoad(di, mode);
      case VStore(mode) => threw := ExecuteVStore(di, mode);
    }

    method ExecuteControl(di: Decoded)
      requires Valid() && WellFormed(di)
      requires var k := di.kind;
        k.Branch? || k.Jump? || k.JumpLink? || k.JumpLinkReg? || k.Ret? || k.Call? || k.LoopSet? || k.LoopDecBr?
      modifies this
      ensures Valid() && Exec(old(Value()), di) == Ran(Value())
    {
      hide Exec; hide ExecJumpLink; hide ExecJumpLinkReg; hide ExecLoopDecBr; hide Holds; hide Sized; hide Next;
      ControlIs(Value(), di);
      match di.kind
      case Branch(c) =>
        var target := (pc + di.imm * 4) % TWO64;
        pc := if Holds(c, ReadReg(di.rs1), ReadReg(di.rs2)) then target else (pc + 4) % TWO64;
      case Jump => pc := (pc + di.imm * 4) % TWO64;
      case JumpLink => ExecuteJumpLink(di, 4);
      case JumpLinkReg => ExecuteJumpLinkReg(di);
      case Ret => pc := ReadReg(29) - ReadReg(29) % 4;
      case Call => ExecuteJumpLink(di, if di.isEscape then 8 else 4);
      case LoopSet =>
        loopCount := ReadReg(di.rs1);
        loopBackedge := di.imm % TWO64;
        Advance(di);
      case LoopDecBr => ExecuteLoopDecBr(di);
    }

    method ExecuteSystem(di: Decoded)
      requires Valid() && WellFormed(di)
      requires var k := di.kind; k.Break? || k.Ecall? || k.TrapRet? || k.CsrSwap?
      modifies this
      ensures Valid() && Exec(old(Value()), di) == Ran(Value())
    {
      hide ExecCsrSwap; hide C.SignalTrap; hide TrapReturn; hide Sized;
      match di.kind
      case Break => SignalTrap(10, pc);
      case Ecall => SignalTrap(8, pc);
      case TrapRet => ExecuteTrapRet();
      case CsrSwap => ExecuteCsrSwap(di);
    }

    /** Instructions that only write registers and move on. */
    method ExecuteRegister(di: Decoded)
      requires Valid() && WellFormed(di)
      requires var k := di.kind; k.Hint? || k.Alu? || k.AdjSp? || k.Frame? || k.VSetVl?
      modifies this
      ensures Valid() && Exec(old(Value()), di) == Ran(Value())
    {
      hide Exec; hide C.WriteReg; hide AluResult; hide ExecVSetVl; hide Sized; hide Next;
      RegisterIs(Value(), di);
      match di.kind
      case Hint => Advance(di);
      case Alu(op) =>
        WriteReg(di.rd, AluResult(op, ReadReg(di.rs1), ReadReg(di.rs2), di.imm));
        Advance(di);
      case AdjSp =>
        WriteReg(31, (ReadReg(31) + di.imm) % TWO64);
        Advance(di);
      case Frame =>
        WriteReg(di.rd, (ReadReg(30) + di.imm) % TWO64);
        Advance(di);
      case VSetVl => ExecuteVSetVl(di);
    }

    method ExecuteTrapRet()
      requires Valid()
      modifies this
      ensures Valid() && Value() == TrapReturn(old(Value()))
    {
      hide Sized;
      var sie, spp := csr.sstatus.spie, csr.sstatus.spp;
      csr := csr.(sstatus := csr.sstatus.(sie := sie));
      supervisor := spp;
      pc := csr.sepc;
    }

    method ExecuteInst(di: Decoded) returns (threw: bool)
      requires Valid() && WellFormed(di)
      modifies this, mem
      ensures Valid() && Matches(Exec(old(Value()), di), threw)
    {
      hide Exec; hide WellFormed;
      var k := di.kind;
      threw := false;
      if Accesses(k) {
        threw := ExecuteAccess(di);
      } else if k.Break? || k.Ecall? || k.TrapRet? || k.CsrSwap? {
        ExecuteSystem(di);
      } else if k.Hint? || k.Alu? || k.AdjSp? || k.Frame? || k.VSetVl? {
        ExecuteRegister(di);
      } else {
        ExecuteControl(di);
      }
    }

    method Step(inst: Option<Decoded>) returns (pending: bool)
      requires Valid() && (inst.Some? ==> WellFormed(inst.value))
      modifies this, mem
      ensures Valid() && Value() == C.Step(old(Value()), inst)
      ensures inst.Some? && Exec(old(Value()), inst.value).Ran? ==> pending == trapPending
      ensures inst.None? || Exec(old(Value()), inst.value).Threw? ==> pending
    {
      if inst.None? {
        SignalTrap(9, pc);
        return true;
      }
      var threw := ExecuteInst(inst.value);
      if threw {
        SignalTrap(2, pc);
        return true;
      }
      TickTimer();
      return trapPending;
    }
  }
}
