/**
  Where instructions go and what loads bring in, in terms of integers, bytes and addresses:
  branches, calls and returns, trap vectors, and sign extension.
 */
module CpuControl {
  import opened Ast
  import opened Words
  import opened Memory
  import opened MemoryTheorems
  import opened Cpu
  import opened CpuArithmetic
  import CpuStack

  // ---- branches ----

  /** The instruction only moves the pc: four times the immediate away if taken, else four on. */
  predicate Branches(s: State, di: Inst, taken: bool) {
    Exec(s, di) == Ran(s.(pc := (s.pc + if taken then 4 * di.imm else 4) % TWO64))
  }

  /** Branches compare the integers the registers hold. */
  lemma BranchesCompare(s: State, di: Inst, x: int, y: int)
    requires InRange(x) && InRange(y) && Has(s, di.rs1, x % TWO64) && Has(s, di.rs2, y % TWO64)
    ensures di.kind == Branch(Equal) ==> Branches(s, di, x == y)
    ensures di.kind == Branch(NotEqual) ==> Branches(s, di, x != y)
    ensures di.kind == Branch(Less) ==> Branches(s, di, x < y)
    ensures di.kind == Branch(LessOrEqual) ==> Branches(s, di, x <= y)
  {
    SignedOf(x);
    SignedOf(y);
    hide Exec; hide Signed;
    ControlIs(s, di);
  }

  // ---- calls and returns ----

  /**
    A return right behind a call, or any code that keeps the link register, comes back to the
    instruction behind the call exactly when that instruction is aligned.
   */
  lemma ReturnFollowsCall(s: State, call: Inst, t: State, ret: Inst)
    requires call.kind.Call? && call.rd == LR && ret.kind.Ret?
    requires Exec(s, call).Ran? && t.regs[LR] == Exec(s, call).s.regs[LR]
    ensures Exec(s, call).s.pc == (s.pc + 4 * call.imm) % TWO64
    ensures Exec(t, ret).Ran? && Exec(t, ret).s.regs == t.regs && Exec(t, ret).s.mem == t.mem
    ensures Exec(t, ret).s.pc == (s.pc + if call.isEscape then 8 else 4) % TWO64 <==> s.pc % 4 == 0
  {
    hide Exec;
    ControlIs(s, call);
    ControlIs(t, ret);
    Aligned(s.pc, if call.isEscape then 8 else 4);
  }

  lemma Aligned(pc: u64, size: nat)
    requires size in {4, 8}
    ensures (pc + size) % TWO64 % 4 == pc % 4
  {
    var n := pc + size;
    if n >= TWO64 { DivMod(n, TWO64, 1, n - TWO64); } else { DivMod(n, TWO64, 0, n); }
    ModShift(n, 4, size / 4);
    if n >= TWO64 { ModShift(n, 4, TWO64 / 4); }
  }

  // ---- trap vectors ----

  /** Control is at the trap base, or `offset` behind it when `stvec` asks for vectored traps. */
  predicate AtVector(s: State, t: State, offset: nat) {
    t.pc == if s.csr.stvec % 4 == 1 then (s.csr.stvec - 1 + offset) % TWO64 else s.csr.stvec - s.csr.stvec % 4
  }

  /** Each cause has its own entry, four bytes long: faults 2, calls 8, illegal instructions 9, breaks 10. */
  lemma TrapVectors(s: State, di: Inst)
    ensures AtVector(s, Step(s, None), 36)
    ensures di.kind.Ecall? ==> Exec(s, di).Ran? && AtVector(s, Exec(s, di).s, 32)
    ensures di.kind.Break? ==> Exec(s, di).Ran? && AtVector(s, Exec(s, di).s, 40)
    ensures di.kind == LoadNonZero && Has(s, di.rs1, 0) ==> Exec(s, di).Ran? && AtVector(s, Exec(s, di).s, 36)
    ensures Exec(s, di).Threw? ==> AtVector(Exec(s, di).s, Step(s, Some(di)), 8)
  {
    hide Exec; hide SignalTrap; hide AtVector; hide TickTimer; hide ReadMem; hide ExecLoadPair; hide ExecStorePair;
    Vectored(s, 8, s.pc);
    Vectored(s, 9, s.pc);
    Vectored(s, 10, s.pc);
    if Exec(s, di).Threw? { Vectored(Exec(s, di).s, 2, Exec(s, di).s.pc); }
    SystemIs(s, di);
    if di.kind == LoadNonZero { AccessIs(s, di); }
  }

  lemma SystemIs(s: State, di: Inst)
    ensures di.kind.Ecall? ==> Exec(s, di) == Ran(SignalTrap(s, 8, s.pc))
    ensures di.kind.Break? ==> Exec(s, di) == Ran(SignalTrap(s, 10, s.pc))
  {
    hide SignalTrap;
  }

  lemma Vectored(s: State, cause: nat, tval: u64)
    requires cause < 16
    ensures AtVector(s, SignalTrap(s, cause, tval), 4 * cause)
  {
  }

  /** The timer comes in, at the entry behind the sixteen for exceptions, exactly when it is due and enabled. */
  lemma TimerVector(s: State)
    ensures var t := TickTimer(s);
      var now := (s.csr.stime + 1) % TWO64;
      t.csr.stime == now
      && if now >= s.csr.stimecmp && s.csr.sstatus.sie
         then AtVector(s, t, 64) && t.csr.sepc == s.pc && t.csr.scause == 0x8000_0000_0000_0000
         else t.pc == s.pc
  {
  }

  // ---- control and status registers ----

  /** The control and status registers at the addresses 0 to 7. */
  function Registers(c: Csrs): (r: seq<u64>)
    ensures |r| == 8
  {
    var t := c.sstatus;
    [(if t.sie then 1 else 0) + (if t.spie then 2 else 0) + (if t.spp then 256 else 0),
     c.stvec, c.sepc, c.scause, c.stval, c.satp, c.stime, c.stimecmp]
  }

  /** What a register keeps of a value written: `sstatus` bits 0, 1 and 8, `stime` nothing. */
  function Kept(k: nat, before: u64, v: u64): u64 {
    if k == 0 then v % 2 + 2 * (v / 2 % 2) + 256 * (v / 256 % 2) else if k == 6 then before else v
  }

  /** CSRSWAP reads the register at its address, and writes it unless its source is r0; others it leaves alone. */
  lemma CsrSwapExchanges(s: State, di: Inst, v: u64)
    requires di.kind.CsrSwap? && Has(s, di.rs1, v)
    ensures Exec(s, di).Ran?
    ensures var k, t := di.imm % 0x1000, Exec(s, di).s;
      var before := if k < 8 then Registers(s.csr)[k] else 0;
      Registers(t.csr) == (if di.rs1 != 0 && k < 8 then Registers(s.csr)[k := Kept(k, before, v)] else Registers(s.csr))
      && t == s.(csr := t.csr, regs := if di.rd == 0 then s.regs else s.regs[di.rd := before], pc := t.pc)
  {
    SwapIs(s, di);
    hide Exec;
    var k := di.imm % 0x1000;
    hide Kept; hide Registers; hide ReadCsr; hide WriteCsr;
    CsrRead(s.csr, k);
    CsrWritten(s.csr, k, v);
  }

  lemma SwapIs(s: State, di: Inst)
    requires di.kind.CsrSwap?
    ensures Exec(s, di) == Ran(ExecCsrSwap(s, di))
  {
    hide ExecCsrSwap;
  }

  lemma CsrRead(c: Csrs, k: nat)
    ensures ReadCsr(c, k) == if k < 8 then Registers(c)[k] else 0
  {
  }

  lemma CsrWritten(c: Csrs, k: nat, v: u64)
    ensures Registers(WriteCsr(c, k, v)) ==
      if k < 8 then Registers(c)[k := Kept(k, Registers(c)[k], v)] else Registers(c)
  {
    var t := StatusOf(v);
    assert (if t.sie then 1 else 0) + (if t.spie then 2 else 0) + (if t.spp then 256 else 0) == Kept(0, 0, v);
  }

  // ---- loads and stores ----

  /** The integer a load brings in: signed loads take the top bit of the last byte for the sign. */
  function Loaded(bytes: seq<byte>, signed: bool): int
    requires |bytes| in {1, 2, 4, 8}
  {
    var wrap :=
      if |bytes| == 1 then 0x100
      else if |bytes| == 2 then 0x1_0000
      else if |bytes| == 4 then 0x1_0000_0000
      else 0x1_0000_0000_0000_0000;
    FromLe(bytes) - if signed && bytes[|bytes| - 1] >= 0x80 then wrap else 0
  }

  lemma {:induction false} TopByte(b: seq<byte>)
    requires b != []
    ensures FromLe(b) == FromLe(b[..|b| - 1]) + Pow256(|b| - 1) * b[|b| - 1]
    ensures FromLe(b[..|b| - 1]) < Pow256(|b| - 1)
    decreases b
  {
    LeOfFromLe(b[..|b| - 1]);
    if |b| > 1 {
      TopByte(b[1..]);
      assert b[1..][..|b| - 2] == b[..|b| - 1][1..];
      MulThree(256, Pow256(|b| - 2), b[|b| - 1]);
    }
  }

  lemma SignByte(b: seq<byte>)
    requires |b| in {1, 2, 4, 8}
    ensures FromLe(b) < Pow256(|b|) <= TWO64 && (FromLe(b) < Pow256(|b|) / 2 <==> b[|b| - 1] < 0x80)
  {
    TopByte(b);
    LeOfFromLe(b);
    Pow256Values();
    assert Pow256(3) == 0x100_0000;
    assert Pow256(7) == 0x100_0000_0000_0000 by {
      assert Pow256(5) == 256 * Pow256(4);
      assert Pow256(6) == 256 * Pow256(5);
    }
    var top, low := b[|b| - 1], FromLe(b[..|b| - 1]);
    hide FromLe; hide Pow256; hide Le;
  }

  lemma SignExtended(b: seq<byte>)
    requires |b| in {1, 2, 4, 8}
    ensures FromLe(b) < TWO64 && SignExtend(FromLe(b), |b|) == Loaded(b, true) % TWO64
    ensures FromLe(b) == Loaded(b, false) % TWO64
  {
    SignByte(b);
    Pow256Values();
    var v := FromLe(b);
    hide FromLe; hide Pow256;
    DivMod(v, TWO64, 0, v);
    if |b| == 8 { ModShift(v, TWO64, 1); }
  }

  /** What memory holds from `addr` on. */
  predicate HoldsBytes(m: Mem, addr: nat, bytes: seq<byte>) {
    addr + |bytes| <= TWO64 && forall j: nat | j < |bytes| :: View(m, addr + j) == Some(bytes[j])
  }

  lemma ReadIs(m: Mem, addr: u64, n: nat) returns (bytes: seq<byte>)
    requires Separate(m) && n in {1, 2, 4, 8} && ReadMem(m, addr, n).Done?
    ensures |bytes| == n && HoldsBytes(m, addr, bytes) && ReadMem(m, addr, n).value == FromLe(bytes)
  {
    if n == 1 {
      bytes := [ReadMem(m, addr, 1).value];
      assert FromLe(bytes) == bytes[0];
    } else {
      bytes := Load(m, addr, n).value;
      hide Load; hide View; hide Separate;
      LoadReadsBytes(m, addr, n);
    }
  }

  /** The address a load or store names. */
  function Address(s: State, di: Inst): u64 { ((if di.rs1 == 0 then 0 else s.regs[di.rs1]) + di.imm) % TWO64 }

  lemma LoadRuns(s: State, di: Inst)
    requires di.kind.LoadInst? && Exec(s, di).Ran?
    ensures var r := ReadMem(s.mem, Address(s, di), di.kind.width);
      r.Done? && Writes(s, di, if di.kind.signed then SignExtend(r.value, di.kind.width) else r.value)
  {
    AccessIs(s, di);
    hide Exec; hide ReadMem; hide SignExtend;
  }

  /** A load that does not throw writes the integer its bytes hold. */
  lemma LoadBringsIn(s: State, di: Inst) returns (bytes: seq<byte>)
    requires Separate(s.mem) && di.kind.LoadInst? && Exec(s, di).Ran?
    ensures |bytes| == di.kind.width && HoldsBytes(s.mem, Address(s, di), bytes)
    ensures Writes(s, di, Loaded(bytes, di.kind.signed) % TWO64)
  {
    hide Exec; hide ReadMem; hide Separate; hide View; hide FromLe; hide Loaded; hide SignExtend; hide Writes;
    hide Address; hide HoldsBytes;
    LoadRuns(s, di);
    bytes := ReadIs(s.mem, Address(s, di), di.kind.width);
    SignExtended(bytes);
  }

  lemma StoreRuns(s: State, di: Inst, v: u64)
    requires di.kind.StoreInst? && Exec(s, di).Ran? && Has(s, di.rd, v)
    ensures var r := WriteMem(s.mem, Address(s, di), v, di.kind.size);
      r.Done? && Exec(s, di).s == s.(mem := r.value, pc := Exec(s, di).s.pc)
  {
    AccessIs(s, di);
    hide Exec; hide WriteMem;
  }

  /** A store that does not throw changes the bytes it names, to the low bytes of its register, and no others. */
  lemma StoreLeaves(s: State, di: Inst, v: u64, a: u64)
    requires Separate(s.mem) && di.kind.StoreInst? && Exec(s, di).Ran? && Has(s, di.rd, v)
    ensures var addr, t := Address(s, di), Exec(s, di).s;
      t == s.(mem := t.mem, pc := t.pc)
      && View(t.mem, a) == if addr <= a < addr + di.kind.size then Some(Le(v, di.kind.size)[a - addr])
         else View(s.mem, a)
  {
    hide Exec; hide WriteMem; hide Separate; hide View; hide Le; hide Address; hide Has;
    StoreRuns(s, di, v);
    CpuStack.WriteEffect(s.mem, Address(s, di), v, di.kind.size, a);
  }
}
