/**
  The CPU: architectural state, one instruction, one step.

  Instructions come decoded; the decoder, the register file and trap entry follow the HVM
  specification, sections 3, 4 and 9.  Memory is the region memory without MMIO callbacks.
  Floating point and the lane-by-lane vector arithmetic are not part of this model.
 */
module Cpu {
  import opened Ast
  import opened Words
  import opened Memory

  type Reg = r: int | 0 <= r < 32

  type Regs = s: seq<u64> | |s| == 32 witness seq(32, i => 0)

  type Lanes = s: seq<u64> | |s| == 4 witness seq(4, i => 0)

  const ZERO_LANES: Lanes := seq(4, i => 0)

  type VRegs = s: seq<Lanes> | |s| == 32 witness seq<Lanes>(32, i => ZERO_LANES)

  type Mem = rs: seq<Region> | Sized(rs) witness []

  const LR: Reg := 29
  const FP: Reg := 30
  const SP: Reg := 31

  /** The fields of `sstatus`, bits 0, 1 and 8; the others read as 0 and ignore writes. */
  datatype Status = Status(sie: bool, spie: bool, spp: bool)

  /** Control and status registers, in the order of their addresses 0x000 to 0x007. */
  datatype Csrs = Csrs(sstatus: Status, stvec: u64, sepc: u64, scause: u64, stval: u64, satp: u64, stime: u64,
      stimecmp: u64)

  datatype State = State(
    regs: Regs, pc: u64, loopCount: u64, loopBackedge: u64,
    reservationAddr: u64, reservationValid: bool,
    vl: u64, vtype: u64, vstate: u64, vregs: VRegs,
    csr: Csrs, supervisor: bool, trapPending: bool, mem: Mem)

  // ---- instructions ----

  datatype AluOp =
    | Mov | Movz | Lui | Addi | Retain | Release
    | Add | Sub | Mul | Div | Divu | Rem | Shl | Shr | Sar | And | Or | Xor | Not
    | CmpEq | CmpNe | CmpLt | CmpLe | Lda | AllocBump | RdProf | ChkB

  datatype Cond = Equal | NotEqual | Less | LessOrEqual

  datatype VMode = Unit | Strided | Indexed

  /** NOP and the hints share one form, as do the loads, the stores, the branches and the vector accesses. */
  datatype Kind =
    | Hint
    | Alu(op: AluOp)
    | LoadInst(width: nat, signed: bool) | StoreInst(size: nat)
    | LoadPair | StorePair | LoadNonZero
    | Branch(cond: Cond) | Jump | JumpLink | JumpLinkReg | Ret | Call
    | Push | Pop | Enter | Leave | AdjSp | Frame
    | Break | Ecall | TrapRet | CsrSwap
    | LoadReserved | StoreConditional
    | LoopSet | LoopDecBr
    | VSetVl | VLoad(from: VMode) | VStore(to: VMode)

  datatype Decoded = Decoded(kind: Kind, rd: Reg, rs1: Reg, rs2: Reg, imm: int, isEscape: bool)

  /** Loads and stores come in the widths the instruction set has. */
  predicate WellFormed(di: Decoded) {
    (di.kind.LoadInst? ==> di.kind.width in {1, 2, 4, 8}) && (di.kind.StoreInst? ==> di.kind.size in {1, 2, 4, 8})
  }

  type Inst = di: Decoded | WellFormed(di) witness Decoded(Hint, 0, 0, 0, 0, false)

  /** An exception leaves behind whatever the instruction had already done. */
  datatype Outcome = Ran(s: State) | Threw(s: State)

  // ---- words and registers ----

  function Wrap(x: int): u64 { x % TWO64 }

  function Signed(x: u64): int { if x < TWO64 / 2 then x else x - TWO64 }

  /** The low `n` bytes of a word, sign extended. */
  function SignExtend(v: u64, n: nat): u64 {
    if n >= 8 || v < Pow256(n) / 2 then v else Wrap(v - Pow256(n))
  }

  function BitOf(op: AluOp, a: nat, b: nat): nat {
    match op
    case And => a % 2 * (b % 2)
    case Or => if a % 2 + b % 2 > 0 then 1 else 0
    case _ => (a + b) % 2
  }

  /** The lowest `k` bits of a bitwise operation. */
  function Bitwise(op: AluOp, a: nat, b: nat, k: nat): nat {
    if k == 0 then 0 else BitOf(op, a, b) + 2 * Bitwise(op, a / 2, b / 2, k - 1)
  }

  function Pow2(k: nat): nat { if k == 0 then 1 else 2 * Pow2(k - 1) }

  function Truncated(a: int, b: int): int
    requires b != 0
  {
    if (a < 0) == (b < 0) then (if a < 0 then -a else a) / (if b < 0 then -b else b)
    else -((if a < 0 then -a else a) / (if b < 0 then -b else b))
  }

  function Bool(b: bool): u64 { if b then 1 else 0 }

  lemma Pow2Positive(k: nat)
    ensures Pow2(k) > 0
  {
  }

  /** What an arithmetic instruction writes, from its operands and immediate. */
  function AluResult(op: AluOp, a: u64, b: u64, imm: int): u64 {
    match op
    case Mov => a
    case Movz => Wrap(Bitwise(Or, a, imm % 0x8000, 64))
    case Lui => Wrap(Bitwise(Or, a, Wrap(imm % 0x8000 * 0x2_0000_0000_0000), 64))
    case Addi => Wrap(a + imm)
    case Retain => a
    case Release => 0
    case Add => Wrap(a + b)
    case Sub => Wrap(a - b)
    case Mul => Wrap(a * b)
    case Div => if b == 0 then TWO64 - 1 else Wrap(Truncated(Signed(a), Signed(b)))
    case Divu => if b == 0 then TWO64 - 1 else Wrap(a / b)
    case Rem => if b == 0 then a else Wrap(Signed(a) - Signed(b) * Truncated(Signed(a), Signed(b)))
    case Shl => Wrap(a * Pow2(b % 64))
    case Shr => Pow2Positive(b % 64); Wrap(a / Pow2(b % 64))
    case Sar => Pow2Positive(b % 64); Wrap(Signed(a) / Pow2(b % 64))
    case And => Wrap(Bitwise(And, a, b, 64))
    case Or => Wrap(Bitwise(Or, a, b, 64))
    case Xor => Wrap(Bitwise(Xor, a, b, 64))
    case Not => TWO64 - 1 - a
    case CmpEq => Bool(a == b)
    case CmpNe => Bool(a != b)
    case CmpLt => Bool(Signed(a) < Signed(b))
    case CmpLe => Bool(Signed(a) <= Signed(b))
    case Lda => Wrap(a + imm)
    case AllocBump => 0
    case RdProf => 0
    case ChkB => a
  }

  function Holds(c: Cond, a: u64, b: u64): bool {
    match c
    case Equal => a == b
    case NotEqual => a != b
    case Less => Signed(a) < Signed(b)
    case LessOrEqual => Signed(a) <= Signed(b)
  }

  /** Register 0 reads as 0. */
  function ReadReg(s: State, r: Reg): u64 { if r == 0 then 0 else s.regs[r] }

  /** Writes to register 0 are dropped. */
  function WriteReg(s: State, r: Reg, v: u64): State { if r == 0 then s else s.(regs := s.regs[r := v]) }

  function Size(di: Decoded): nat { if di.isEscape then 8 else 4 }

  function Next(s: State, di: Decoded): State { s.(pc := Wrap(s.pc + Size(di))) }

  function Target(s: State, di: Decoded): u64 { Wrap(s.pc + di.imm * 4) }

  // ---- memory ----

  function ReadMem(m: Mem, addr: u64, n: nat): (v: Access<u64>)
    requires n in {1, 2, 4, 8}
    ensures !v.Handler?
  {
    if n == 1 then
      var b := LoadByte(m, {}, addr);
      if b.Done? then Done(b.value) else Fault(OutOfRange)
    else
      match Load(m, addr, n)
      case Done(b) =>
        LeOfFromLe(b);
        Pow256Values();
        Done(FromLe(b))
      case Fault(f) => Fault(f)
  }

  /** The low `n` bytes of a register, least significant first. */
  function WriteMem(m: Mem, addr: u64, v: u64, n: nat): (r: Access<Mem>)
    requires n in {1, 2, 4, 8}
    ensures !r.Handler?
  {
    if n == 1 then
      match StoreByte(m, {}, addr, v % 256)
      case Done(rs) => Done(rs)
      case Fault(f) => Fault(f)
      case Handler(_) => Fault(OutOfRange)
    else
      match Store(m, addr, Le(v, n))
      case Done(rs) => Done(rs)
      case Fault(f) => Fault(f)
  }

  // ---- traps ----

  function StatusWord(t: Status): u64 {
    (if t.sie then 1 else 0) + (if t.spie then 2 else 0) + (if t.spp then 0x100 else 0)
  }

  function StatusOf(v: u64): Status { Status(v % 2 == 1, v / 2 % 2 == 1, v / 0x100 % 2 == 1) }

  /** Trap entry: HVM specification, section 9.3. */
  function SignalTrap(s: State, cause: u64, tval: u64): State {
    var status := Status(false, s.csr.sstatus.sie, s.supervisor);
    var base := s.csr.stvec - s.csr.stvec % 4;
    var handler :=
      if s.csr.stvec % 4 == 1 then Wrap(base + (if cause >= TWO64 / 2 then (cause - TWO64 / 2 + 16) * 4 else cause * 4))
      else base;
    s.(pc := handler, csr := s.csr.(sepc := s.pc, scause := cause, stval := tval, sstatus := status),
       supervisor := true, trapPending := true)
  }

  function TrapReturn(s: State): State {
    s.(csr := s.csr.(sstatus := s.csr.sstatus.(sie := s.csr.sstatus.spie)),
       supervisor := s.csr.sstatus.spp, pc := s.csr.sepc)
  }

  /** Timer interrupts fire when enabled. */
  function TickTimer(s: State): State {
    var t := s.(csr := s.csr.(stime := Wrap(s.csr.stime + 1)));
    if t.csr.stime >= t.csr.stimecmp && t.csr.sstatus.sie then SignalTrap(t, TWO64 / 2, 0) else t
  }

  function ReadCsr(c: Csrs, addr: nat): u64 {
    if addr == 0 then StatusWord(c.sstatus)
    else if addr == 1 then c.stvec
    else if addr == 2 then c.sepc
    else if addr == 3 then c.scause
    else if addr == 4 then c.stval
    else if addr == 5 then c.satp
    else if addr == 6 then c.stime
    else if addr == 7 then c.stimecmp
    else 0
  }

  /** `stime` ignores writes; `sstatus` keeps its three fields only. */
  function WriteCsr(c: Csrs, addr: nat, v: u64): Csrs {
    if addr == 0 then c.(sstatus := StatusOf(v))
    else if addr == 1 then c.(stvec := v) else if addr == 2 then c.(sepc := v) else if addr == 3 then c.(scause := v)
    else if addr == 4 then c.(stval := v) else if addr == 5 then c.(satp := v) else if addr == 7 then c.(stimecmp := v)
    else c
  }

  // ---- instructions that access memory ----

  function ExecLoad(s: State, di: Decoded, width: nat, signed: bool): Outcome
    requires width in {1, 2, 4, 8}
  {
    match ReadMem(s.mem, Wrap(ReadReg(s, di.rs1) + di.imm), width)
    case Fault(_) => Threw(s)
    case Done(v) => Ran(Next(WriteReg(s, di.rd, if signed then SignExtend(v, width) else v), di))
  }

  function ExecStore(s: State, di: Decoded, size: nat): Outcome
    requires size in {1, 2, 4, 8}
  {
    match WriteMem(s.mem, Wrap(ReadReg(s, di.rs1) + di.imm), ReadReg(s, di.rd), size)
    case Fault(_) => Threw(s)
    case Done(m) => Ran(Next(s.(mem := m), di))
  }

  function ExecLoadPair(s: State, di: Decoded): Outcome {
    var addr := ReadReg(s, di.rs2);
    match ReadMem(s.mem, addr, 8)
    case Fault(_) => Threw(s)
    case Done(v) =>
      var t := WriteReg(s, di.rd, v);
      match ReadMem(s.mem, Wrap(addr + 8), 8)
      case Fault(_) => Threw(t)
      case Done(w) => Ran(Next(WriteReg(t, di.rs1, w), di))
  }

  function ExecStorePair(s: State, di: Decoded): Outcome {
    var addr := ReadReg(s, di.rs2);
    match WriteMem(s.mem, addr, ReadReg(s, di.rd), 8)
    case Fault(_) => Threw(s)
    case Done(m) =>
      var t := s.(mem := m);
      match WriteMem(m, Wrap(addr + 8), ReadReg(s, di.rs1), 8)
      case Fault(_) => Threw(t)
      case Done(m2) => Ran(Next(t.(mem := m2), di))
  }

  function ExecLoadNonZero(s: State, di: Decoded): Outcome {
    if ReadReg(s, di.rs1) == 0 then Ran(SignalTrap(s, 9, s.pc))
    else
      match ReadMem(s.mem, Wrap(ReadReg(s, di.rs1) + di.imm), 8)
      case Fault(_) => Threw(s)
      case Done(v) => Ran(Next(WriteReg(s, di.rd, v), di))
  }

  /** The stack pointer moves before the store; the register stored is read after that. */
  function ExecPush(s: State, di: Decoded): Outcome {
    var t := WriteReg(s, SP, Wrap(ReadReg(s, SP) - 8));
    match WriteMem(t.mem, ReadReg(t, SP), ReadReg(t, di.rd), 8)
    case Fault(_) => Threw(t)
    case Done(m) => Ran(Next(t.(mem := m), di))
  }

  function ExecPop(s: State, di: Decoded): Outcome {
    match ReadMem(s.mem, ReadReg(s, SP), 8)
    case Fault(_) => Threw(s)
    case Done(v) =>
      var t := WriteReg(s, di.rd, v);
      Ran(Next(WriteReg(t, SP, Wrap(ReadReg(t, SP) + 8)), di))
  }

  function ExecEnter(s: State, di: Decoded): Outcome {
    var sp := Wrap(ReadReg(s, SP) - 16);
    match WriteMem(s.mem, sp, ReadReg(s, LR), 8)
    case Fault(_) => Threw(s)
    case Done(m) =>
      var t := s.(mem := m);
      match WriteMem(m, Wrap(sp + 8), ReadReg(s, FP), 8)
      case Fault(_) => Threw(t)
      case Done(m2) => Ran(Next(WriteReg(WriteReg(t.(mem := m2), FP, sp), SP, Wrap(sp - di.imm)), di))
  }

  function ExecLeave(s: State, di: Decoded): Outcome {
    var sp := ReadReg(s, FP);
    match ReadMem(s.mem, sp, 8)
    case Fault(_) => Threw(s)
    case Done(v) =>
      var t := WriteReg(s, LR, v);
      match ReadMem(s.mem, Wrap(sp + 8), 8)
      case Fault(_) => Threw(t)
      case Done(w) => Ran(Next(WriteReg(WriteReg(t, FP, w), SP, Wrap(sp + 16)), di))
  }

  function ExecLoadReserved(s: State, di: Decoded): Outcome {
    var addr := ReadReg(s, di.rs1);
    match ReadMem(s.mem, addr, 8)
    case Fault(_) => Threw(s)
    case Done(v) => Ran(Next(WriteReg(s, di.rd, v).(reservationAddr := addr, reservationValid := true), di))
  }

  predicate HoldsReservation(s: State, addr: u64) { s.reservationValid && s.reservationAddr == addr }

  function ExecStoreConditional(s: State, di: Decoded): Outcome {
    var addr := ReadReg(s, di.rs1);
    if HoldsReservation(s, addr) then
      match WriteMem(s.mem, addr, ReadReg(s, di.rs2), 8)
      case Fault(_) => Threw(s)
      case Done(m) => Ran(Next(WriteReg(s.(mem := m), di.rd, 0).(reservationValid := false), di))
    else Ran(Next(WriteReg(s, di.rd, 1), di))
  }

  // ---- vectors ----

  /** How many of the four lanes are active. */
  function Active(s: State): nat { if s.vl > 4 then 4 else s.vl }

  function LaneAddr(s: State, di: Decoded, mode: VMode, i: nat): u64
    requires i < 4
  {
    var base := ReadReg(s, di.rs2);
    match mode
    case Unit => Wrap(base + 8 * i)
    case Strided => Wrap(base + ReadReg(s, di.rs1) * i)
    case Indexed => Wrap(base + s.vregs[di.rs1][i])
  }

  function SetLane(s: State, r: Reg, i: nat, v: u64): State
    requires i < 4
  {
    s.(vregs := s.vregs[r := s.vregs[r][i := v]])
  }

  /** Lanes from `i` up to `n`, one access each; an exception keeps the lanes already loaded. */
  function VLoadFrom(s: State, di: Decoded, mode: VMode, i: nat, n: nat): Outcome
    requires n <= 4
    decreases n - i
  {
    if i >= n then Ran(s)
    else
      match ReadMem(s.mem, LaneAddr(s, di, mode, i), 8)
      case Fault(_) => Threw(s)
      case Done(v) => VLoadFrom(SetLane(s, di.rd, i, v), di, mode, i + 1, n)
  }

  function VStoreFrom(s: State, di: Decoded, mode: VMode, i: nat, n: nat): Outcome
    requires n <= 4
    decreases n - i
  {
    if i >= n then Ran(s)
    else
      match WriteMem(s.mem, LaneAddr(s, di, mode, i), s.vregs[di.rd][i], 8)
      case Fault(_) => Threw(s)
      case Done(m) => VStoreFrom(s.(mem := m), di, mode, i + 1, n)
  }

  function ExecVSetVl(s: State, di: Decoded): State {
    var avl := ReadReg(s, di.rs1);
    var n := if avl < 4 then avl else 4;
    Next(WriteReg(s.(vl := n, vtype := ReadReg(s, di.rs2), vstate := 2), di.rd, n), di)
  }

  function Finish(o: Outcome, di: Decoded): Outcome {
    match o
    case Ran(s) => Ran(Next(s, di))
    case Threw(s) => Threw(s)
  }

  // ---- one instruction ----

  function ExecLoopDecBr(s: State, di: Decoded): State {
    if s.loopCount == 0 then Next(s, di)
    else if s.loopCount == 1 then Next(s.(loopCount := 0), di)
    else s.(loopCount := s.loopCount - 1, pc := Target(s, di))
  }

  /** The link is the address `size` bytes on. */
  function ExecJumpLink(s: State, di: Decoded, size: nat): State {
    WriteReg(s, di.rd, Wrap(s.pc + size)).(pc := Target(s, di))
  }

  /** The link register is written before the base register is read. */
  function ExecJumpLinkReg(s: State, di: Decoded): State {
    var t := WriteReg(s, di.rd, Wrap(s.pc + 4));
    var a := Wrap(ReadReg(t, di.rs1) + di.imm);
    t.(pc := a - a % 4)
  }

  function ExecCsrSwap(s: State, di: Decoded): State {
    var addr := di.imm % 0x1000;
    var previous := ReadCsr(s.csr, addr);
    var t := if di.rs1 != 0 then s.(csr := WriteCsr(s.csr, addr, ReadReg(s, di.rs1))) else s;
    Next(WriteReg(t, di.rd, previous), di)
  }

  /** Does the instruction access memory, and so may throw? */
  predicate Accesses(k: Kind) {
    k.LoadInst? || k.StoreInst? || k.LoadPair? || k.StorePair? || k.LoadNonZero? || k.Push? || k.Pop? || k.Enter?
      || k.Leave?
    || k.LoadReserved? || k.StoreConditional? || k.VLoad? || k.VStore?
  }

  function Exec(s: State, di: Decoded): Outcome
    requires WellFormed(di)
  {
    match di.kind
    case Hint => Ran(Next(s, di))
    case Alu(op) => Ran(Next(WriteReg(s, di.rd, AluResult(op, ReadReg(s, di.rs1), ReadReg(s, di.rs2), di.imm)), di))
    case LoadInst(width, signed) => ExecLoad(s, di, width, signed)
    case StoreInst(size) => ExecStore(s, di, size)
    case LoadPair => ExecLoadPair(s, di)
    case StorePair => ExecStorePair(s, di)
    case LoadNonZero => ExecLoadNonZero(s, di)
    case Branch(c) =>
      Ran(s.(pc := if Holds(c, ReadReg(s, di.rs1), ReadReg(s, di.rs2)) then Target(s, di) else Wrap(s.pc + 4)))
    case Jump => Ran(s.(pc := Target(s, di)))
    case JumpLink => Ran(ExecJumpLink(s, di, 4))
    case JumpLinkReg => Ran(ExecJumpLinkReg(s, di))
    case Ret => Ran(s.(pc := ReadReg(s, LR) - ReadReg(s, LR) % 4))
    case Call => Ran(ExecJumpLink(s, di, Size(di)))
    case Push => ExecPush(s, di)
    case Pop => ExecPop(s, di)
    case Enter => ExecEnter(s, di)
    case Leave => ExecLeave(s, di)
    case AdjSp => Ran(Next(WriteReg(s, SP, Wrap(ReadReg(s, SP) + di.imm)), di))
    case Frame => Ran(Next(WriteReg(s, di.rd, Wrap(ReadReg(s, FP) + di.imm)), di))
    case Break => Ran(SignalTrap(s, 10, s.pc))
    case Ecall => Ran(SignalTrap(s, 8, s.pc))
    case TrapRet => Ran(TrapReturn(s))
    case CsrSwap => Ran(ExecCsrSwap(s, di))
    case LoadReserved => ExecLoadReserved(s, di)
    case StoreConditional => ExecStoreConditional(s, di)
    case LoopSet => Ran(Next(s.(loopCount := ReadReg(s, di.rs1), loopBackedge := Wrap(di.imm)), di))
    case LoopDecBr => Ran(ExecLoopDecBr(s, di))
    case VSetVl => Ran(ExecVSetVl(s, di))
    case VLoad(mode) => Finish(VLoadFrom(s, di, mode, 0, Active(s)), di)
    case VStore(mode) => Finish(VStoreFrom(s, di, mode, 0, Active(s)), di)
  }

  /** The instructions that access memory, one by one. */
  lemma AccessIs(s: State, di: Decoded)
    requires WellFormed(di) && Accesses(di.kind)
    ensures di.kind.LoadInst? ==> Exec(s, di) == ExecLoad(s, di, di.kind.width, di.kind.signed)
    ensures di.kind.StoreInst? ==> Exec(s, di) == ExecStore(s, di, di.kind.size)
    ensures di.kind.LoadPair? ==> Exec(s, di) == ExecLoadPair(s, di)
    ensures di.kind.StorePair? ==> Exec(s, di) == ExecStorePair(s, di)
    ensures di.kind.LoadNonZero? ==> Exec(s, di) == ExecLoadNonZero(s, di)
    ensures di.kind.Push? ==> Exec(s, di) == ExecPush(s, di)
    ensures di.kind.Pop? ==> Exec(s, di) == ExecPop(s, di)
    ensures di.kind.Enter? ==> Exec(s, di) == ExecEnter(s, di)
    ensures di.kind.Leave? ==> Exec(s, di) == ExecLeave(s, di)
    ensures di.kind.LoadReserved? ==> Exec(s, di) == ExecLoadReserved(s, di)
    ensures di.kind.StoreConditional? ==> Exec(s, di) == ExecStoreConditional(s, di)
    ensures di.kind.VLoad? ==> Exec(s, di) == Finish(VLoadFrom(s, di, di.kind.from, 0, Active(s)), di)
    ensures di.kind.VStore? ==> Exec(s, di) == Finish(VStoreFrom(s, di, di.kind.to, 0, Active(s)), di)
  {
    hide ExecLoad; hide ExecStore; hide ExecLoadPair; hide ExecStorePair; hide ExecLoadNonZero; hide ExecPush;
    hide ExecPop; hide ExecEnter; hide ExecLeave; hide ExecLoadReserved; hide ExecStoreConditional; hide VLoadFrom;
    hide VStoreFrom; hide Finish; hide AluResult; hide SignalTrap; hide TrapReturn; hide ExecCsrSwap;
    hide ExecLoopDecBr; hide ExecVSetVl; hide ExecJumpLink; hide ExecJumpLinkReg; hide Holds; hide Target; hide Next;
    hide WriteReg; hide ReadReg; hide Size; hide Wrap;
  }

  /** Branches, jumps, calls and hardware loops, one by one. */
  lemma ControlIs(s: State, di: Decoded)
    requires WellFormed(di)
    ensures di.kind.Branch? ==>
      Exec(s, di) == Ran(s.(pc := if Holds(di.kind.cond, ReadReg(s, di.rs1), ReadReg(s, di.rs2)) then Target(s, di)
                                  else Wrap(s.pc + 4)))
    ensures di.kind.Jump? ==> Exec(s, di) == Ran(s.(pc := Target(s, di)))
    ensures di.kind.JumpLink? ==> Exec(s, di) == Ran(ExecJumpLink(s, di, 4))
    ensures di.kind.JumpLinkReg? ==> Exec(s, di) == Ran(ExecJumpLinkReg(s, di))
    ensures di.kind.Ret? ==> Exec(s, di) == Ran(s.(pc := ReadReg(s, LR) - ReadReg(s, LR) % 4))
    ensures di.kind.Call? ==> Exec(s, di) == Ran(ExecJumpLink(s, di, Size(di)))
    ensures di.kind.LoopSet? ==>
      Exec(s, di) == Ran(Next(s.(loopCount := ReadReg(s, di.rs1), loopBackedge := Wrap(di.imm)), di))
    ensures di.kind.LoopDecBr? ==> Exec(s, di) == Ran(ExecLoopDecBr(s, di))
  {
    hide ExecLoad; hide ExecStore; hide ExecLoadPair; hide ExecStorePair; hide ExecLoadNonZero; hide ExecPush;
    hide ExecPop; hide ExecEnter; hide ExecLeave; hide ExecLoadReserved; hide ExecStoreConditional; hide VLoadFrom;
    hide VStoreFrom; hide Finish; hide AluResult; hide SignalTrap; hide TrapReturn; hide ExecCsrSwap;
    hide ExecLoopDecBr; hide ExecVSetVl; hide ExecJumpLink; hide ExecJumpLinkReg; hide Holds; hide Target; hide Next;
    hide WriteReg; hide ReadReg; hide Size; hide Wrap;
  }

  /** Instructions that only write registers, one by one. */
  lemma RegisterIs(s: State, di: Decoded)
    requires WellFormed(di)
    ensures di.kind.Hint? ==> Exec(s, di) == Ran(Next(s, di))
    ensures di.kind.Alu? ==>
      Exec(s, di) ==
        Ran(Next(WriteReg(s, di.rd, AluResult(di.kind.op, ReadReg(s, di.rs1), ReadReg(s, di.rs2), di.imm)), di))
    ensures di.kind.AdjSp? ==> Exec(s, di) == Ran(Next(WriteReg(s, SP, Wrap(ReadReg(s, SP) + di.imm)), di))
    ensures di.kind.Frame? ==> Exec(s, di) == Ran(Next(WriteReg(s, di.rd, Wrap(ReadReg(s, FP) + di.imm)), di))
    ensures di.kind.VSetVl? ==> Exec(s, di) == Ran(ExecVSetVl(s, di))
  {
    hide ExecLoad; hide ExecStore; hide ExecLoadPair; hide ExecStorePair; hide ExecLoadNonZero; hide ExecPush;
    hide ExecPop; hide ExecEnter; hide ExecLeave; hide ExecLoadReserved; hide ExecStoreConditional; hide VLoadFrom;
    hide VStoreFrom; hide Finish; hide AluResult; hide SignalTrap; hide TrapReturn; hide ExecCsrSwap;
    hide ExecLoopDecBr; hide ExecVSetVl; hide ExecJumpLink; hide ExecJumpLinkReg; hide Holds; hide Target; hide Next;
    hide WriteReg; hide ReadReg; hide Size; hide Wrap;
  }

  /** One step on a decoded instruction; None is an undecodable one. */
  function Step(s: State, inst: Option<Decoded>): State
    requires inst.Some? ==> WellFormed(inst.value)
  {
    match inst
    case None => SignalTrap(s, 9, s.pc)
    case Some(di) =>
      match Exec(s, di)
      case Ran(t) => TickTimer(t)
      case Threw(t) => SignalTrap(t, 2, t.pc)
  }
}
