/**
  What an exception leaves behind: instructions with one memory access are precise, the
  others keep what they had done before the access that failed.
 */
module CpuFaults {
  import opened Ast
  import opened Words
  import opened Memory
  import opened MemoryTheorems
  import opened Cpu

  predicate SingleAccess(k: Kind) {
    k.LoadInst? || k.StoreInst? || k.LoadNonZero? || k.Pop? || k.LoadReserved? || k.StoreConditional?
  }

  /** Only instructions that access memory can throw. */
  lemma OthersNeverThrow(s: State, di: Decoded)
    requires WellFormed(di) && !Accesses(di.kind)
    ensures Exec(s, di).Ran?
  {
    hide AluResult; hide SignalTrap; hide ExecVSetVl; hide ExecLoopDecBr; hide ExecCsrSwap; hide TrapReturn; hide Next;
    hide WriteReg;
    hide Holds; hide ReadReg; hide Target; hide Wrap;
  }

  /** An instruction with one access that throws has changed nothing; the step only takes the trap. */
  lemma PreciseFault(s: State, di: Decoded)
    requires WellFormed(di) && SingleAccess(di.kind) && Exec(s, di).Threw?
    ensures Exec(s, di).s == s && Step(s, Some(di)) == SignalTrap(s, 2, s.pc)
  {
    hide ReadMem; hide WriteMem; hide SignalTrap; hide TickTimer; hide SignExtend; hide Next; hide WriteReg; hide Wrap;
  }

  /** Trap entry masks interrupts and leaves registers, vectors, memory, the loop counter and the reservation alone. */
  lemma TrapKeeps(s: State, cause: u64, tval: u64)
    ensures var t := SignalTrap(s, cause, tval);
      t.regs == s.regs && t.vregs == s.vregs && t.mem == s.mem && t.loopCount == s.loopCount && t.vl == s.vl
      && t.reservationAddr == s.reservationAddr && t.reservationValid == s.reservationValid
      && t.csr.sepc == s.pc && t.csr.scause == cause && !t.csr.sstatus.sie
  {
  }

  /** A trap return right after trap entry goes back to the instruction, its privilege and its interrupt enable. */
  lemma TrapReturnUndoesTrap(s: State, cause: u64, tval: u64)
    ensures var t := TrapReturn(SignalTrap(s, cause, tval));
      t.pc == s.pc && t.supervisor == s.supervisor && t.csr.sstatus.sie == s.csr.sstatus.sie
      && t.regs == s.regs && t.vregs == s.vregs && t.mem == s.mem && t.loopCount == s.loopCount
      && t.reservationAddr == s.reservationAddr && t.reservationValid == s.reservationValid
  {
  }

  /** Writing a control register back as it was read changes none of them. */
  lemma WritingBackKeeps(c: Csrs, addr: nat)
    ensures WriteCsr(c, addr, ReadCsr(c, addr)) == c
  {
    var t := c.sstatus;
    assert StatusOf(StatusWord(t)) == t;
  }

  // ---- when an access throws ----

  /** A byte access is possible where an access of width 1 is. */
  lemma ByteAccess(m: Mem, addr: u64, v: byte)
    requires Separate(m)
    ensures LoadByte(m, {}, addr).Done? <==> Load(m, addr, 1).Done?
    ensures StoreByte(m, {}, addr, v).Done? <==> Store(m, addr, [v]).Done?
  {
    if Find(m, addr).Some? {
      assert m[Find(m, addr).value] in m;
    }
  }

  /** Reads and writes of `n` bytes are possible exactly when one region holds them all. */
  lemma AccessPossibleExactlyWhen(m: Mem, addr: u64, v: u64, n: nat)
    requires Separate(m) && n in {1, 2, 4, 8}
    ensures ReadMem(m, addr, n).Done? <==> exists r :: r in m && r.base <= addr && addr + n <= End(r)
    ensures WriteMem(m, addr, v, n).Done? <==> exists r :: r in m && !r.readOnly && r.base <= addr && addr + n <= End(r)
  {
    hide Le; hide FromLe; hide Load; hide Store; hide LoadByte; hide StoreByte; hide Separate;
    ByteAccess(m, addr, v % 256);
    AccessExactlyWhen(m, addr, n);
    assert |Le(v, n)| == n;
    if n == 1 {
      var b: seq<byte> := [v % 256];
      assert Store(m, addr, b).Done? <==> exists r :: r in m && !r.readOnly && r.base <= addr && addr + n <= End(r);
    }
  }

  /** A load throws exactly when no region holds all its bytes. */
  lemma LoadThrowsExactlyWhen(s: State, di: Decoded)
    requires WellFormed(di) && di.kind.LoadInst? && Separate(s.mem)
    ensures var addr := Wrap(ReadReg(s, di.rs1) + di.imm);
      Exec(s, di).Threw? <==> !exists r :: r in s.mem && r.base <= addr && addr + di.kind.width <= End(r)
  {
    hide ReadMem; hide WriteMem; hide Separate; hide Wrap; hide SignExtend; hide Next; hide WriteReg;
    AccessPossibleExactlyWhen(s.mem, Wrap(ReadReg(s, di.rs1) + di.imm), 0, di.kind.width);
  }

  /** A store throws exactly when no writable region holds all its bytes. */
  lemma StoreThrowsExactlyWhen(s: State, di: Decoded)
    requires WellFormed(di) && di.kind.StoreInst? && Separate(s.mem)
    ensures var addr := Wrap(ReadReg(s, di.rs1) + di.imm);
      Exec(s, di).Threw? <==>
      !exists r :: r in s.mem && !r.readOnly && r.base <= addr && addr + di.kind.size <= End(r)
  {
    hide ReadMem; hide WriteMem; hide Separate; hide Wrap; hide Next;
    AccessPossibleExactlyWhen(s.mem, Wrap(ReadReg(s, di.rs1) + di.imm), ReadReg(s, di.rd), di.kind.size);
  }

  // ---- what the other instructions leave behind ----

  /** A PUSH that throws has already moved the stack pointer: it is never precise. */
  lemma PushFault(s: State, di: Decoded)
    requires ExecPush(s, di).Threw?
    ensures ExecPush(s, di).s == WriteReg(s, SP, Wrap(s.regs[SP] as int - 8)) && ExecPush(s, di).s != s
  {
    hide WriteMem;
  }

  /**
    An ENTER that throws on its second store has written the first: it is precise exactly when
    the first store failed or wrote the bytes that were there.
   */
  lemma EnterFault(s: State, di: Decoded)
    requires ExecEnter(s, di).Threw?
    ensures var first := WriteMem(s.mem, Wrap(s.regs[SP] as int - 16), s.regs[LR], 8);
      ExecEnter(s, di).s == (if first.Done? then s.(mem := first.value) else s)
      && (ExecEnter(s, di).s == s <==> first.Fault? || first.value == s.mem)
  {
    hide WriteMem;
  }

  /**
    A LEAVE that throws on its second load has loaded r29: it is precise exactly when the first
    load failed or r29 held the value.
   */
  lemma LeaveFault(s: State, di: Decoded)
    requires ExecLeave(s, di).Threw?
    ensures var first := ReadMem(s.mem, s.regs[FP], 8);
      ExecLeave(s, di).s == (if first.Done? then WriteReg(s, LR, first.value) else s)
      && (ExecLeave(s, di).s == s <==> first.Fault? || first.value == s.regs[LR])
  {
    hide ReadMem;
  }

  lemma LoadPairFault(s: State, di: Decoded)
    requires ExecLoadPair(s, di).Threw?
    ensures var first := ReadMem(s.mem, ReadReg(s, di.rs2), 8);
      ExecLoadPair(s, di).s == (if first.Done? then WriteReg(s, di.rd, first.value) else s)
      && (ExecLoadPair(s, di).s == s <==> first.Fault? || di.rd == 0 || first.value == s.regs[di.rd])
  {
    hide ReadMem;
  }

  lemma StorePairFault(s: State, di: Decoded)
    requires ExecStorePair(s, di).Threw?
    ensures var first := WriteMem(s.mem, ReadReg(s, di.rs2), ReadReg(s, di.rd), 8);
      ExecStorePair(s, di).s == (if first.Done? then s.(mem := first.value) else s)
      && (ExecStorePair(s, di).s == s <==> first.Fault? || first.value == s.mem)
  {
    hide WriteMem;
  }

  /** A vector load that throws has loaded exactly the lanes before the one that failed. */
  lemma {:induction false} VLoadFault(s: State, di: Decoded, mode: VMode, i: nat, n: nat) returns (k: nat)
    requires i <= n <= 4 && VLoadFrom(s, di, mode, i, n).Threw?
    ensures i <= k < n
    ensures var t := VLoadFrom(s, di, mode, i, n).s;
      t == VLoadFrom(s, di, mode, i, k).s && VLoadFrom(s, di, mode, i, k).Ran?
        && ReadMem(t.mem, LaneAddr(t, di, mode, k), 8).Fault?
    decreases n - i
  {
    hide ReadMem; hide LaneAddr; hide SetLane;
    match ReadMem(s.mem, LaneAddr(s, di, mode, i), 8)
    case Fault(_) => k := i;
    case Done(v) => k := VLoadFault(SetLane(s, di.rd, i, v), di, mode, i + 1, n);
  }

  /** A vector store that throws has stored exactly the lanes before the one that failed. */
  lemma {:induction false} VStoreFault(s: State, di: Decoded, mode: VMode, i: nat, n: nat) returns (k: nat)
    requires i <= n <= 4 && VStoreFrom(s, di, mode, i, n).Threw?
    ensures i <= k < n
    ensures var t := VStoreFrom(s, di, mode, i, n).s;
      t == VStoreFrom(s, di, mode, i, k).s && VStoreFrom(s, di, mode, i, k).Ran?
      && WriteMem(t.mem, LaneAddr(t, di, mode, k), t.vregs[di.rd][k], 8).Fault?
    decreases n - i
  {
    hide WriteMem; hide LaneAddr;
    match WriteMem(s.mem, LaneAddr(s, di, mode, i), s.vregs[di.rd][i], 8)
    case Fault(_) => k := i;
    case Done(m) => k := VStoreFault(s.(mem := m), di, mode, i + 1, n);
  }

  // ---- refutations ----

  /** A machine with one writable doubleword, at address 0, holding `b`. */
  function OneWord(b: seq<byte>, regs: Regs, vl: u64): State
    requires |b| == 8
  {
    State(regs, 0, 0, 0, 0, false, vl, 0, 0, seq<Lanes>(32, i => ZERO_LANES),
      Csrs(Status(false, false, false), 0, 0, 0, 0, 0, 0, 0), false, false,
          [Region(0, b, Ram, false)])
  }

  lemma OneWordReads(b: seq<byte>)
    requires |b| == 8
    ensures ReadMem([Region(0, b, Ram, false)], 0, 8) == Done(FromLe(b))
      && ReadMem([Region(0, b, Ram, false)], 8, 8).Fault?
  {
    hide FromLe;
    var r := Region(0, b, Ram, false);
    var m: Mem := [r];
    assert Contains(r, 0) && !Contains(r, 8);
    assert FindFrom(m, 0, 0) == Some(0);
    assert FindFrom(m, 8, 1) == None;
    assert b[0..8] == b;
  }

  lemma OneWordWrites(b: seq<byte>, v: u64)
    requires |b| == 8
    ensures WriteMem([Region(0, b, Ram, false)], 0, v, 8) == Done([Region(0, Le(v, 8), Ram, false)])
    ensures WriteMem([Region(0, b, Ram, false)], 8, v, 8).Fault?
  {
    hide Le;
    var r := Region(0, b, Ram, false);
    var m: Mem := [r];
    assert Contains(r, 0) && !Contains(r, 8);
    assert FindFrom(m, 0, 0) == Some(0);
    assert FindFrom(m, 8, 1) == None;
    assert Overwrite(b, 0, Le(v, 8)) == Le(v, 8);
    assert m[0 := Region(0, Le(v, 8), Ram, false)] == [Region(0, Le(v, 8), Ram, false)];
  }

  function One(): (b: seq<byte>)
    ensures |b| == 8 && FromLe(b) == 1
  {
    Pow256Values();
    FromLeOfLe(1, 8);
    Le(1, 8)
  }

  /** Registers at zero but for the stack pointer, over one doubleword holding 1; two lanes active. */
  function Witness(): State {
    OneWord(One(), seq(32, i => if i == 31 then 16 else 0), 2)
  }

  lemma WitnessIs()
    ensures var w := Witness();
      w.mem == [Region(0, One(), Ram, false)] && w.regs[29] == 0 && w.regs[30] == 0 && w.regs[31] == 16
      && w.vregs[1] == ZERO_LANES && Wrap(8) == 8 && Wrap(0) == 0 && Wrap(16 - 16) == 0
  {
    hide One;
  }

  function AnyPair(): Decoded { Decoded(LoadPair, 1, 0, 0, 0, false) }

  lemma LoadPairCanBeImprecise()
    ensures exists s, di :: ExecLoadPair(s, di).Threw? && ExecLoadPair(s, di).s.regs != s.regs
  {
    OneWordReads(One());
    hide ReadMem; hide Le; hide FromLe; hide One;
    assert ExecLoadPair(Witness(), AnyPair()).s.regs[1] == 1;
  }

  lemma LeaveCanBeImprecise()
    ensures exists s, di :: ExecLeave(s, di).Threw? && ExecLeave(s, di).s.regs != s.regs
  {
    hide ReadMem; hide FromLe; hide One; hide Witness; hide Wrap;
    OneWordReads(One());
    WitnessIs();
    assert ExecLeave(Witness(), AnyPair()) == Threw(WriteReg(Witness(), LR, 1));
  }

  lemma StorePairThrows(s: State, di: Decoded, m: Mem)
    requires ReadReg(s, di.rs2) == 0 && WriteMem(s.mem, 0, ReadReg(s, di.rd), 8) == Done(m)
    requires WriteMem(m, 8, ReadReg(s, di.rs1), 8).Fault?
    ensures ExecStorePair(s, di) == Threw(s.(mem := m))
  {
    hide WriteMem;
  }

  lemma StorePairCanBeImprecise()
    ensures exists s, di :: ExecStorePair(s, di).Threw? && ExecStorePair(s, di).s.mem != s.mem
  {
    hide WriteMem; hide Le; hide FromLe; hide One; hide Witness; hide ExecStorePair;
    OneWordWrites(One(), 0);
    OneWordWrites(Le(0, 8), 0);
    ZeroIsNotOne();
    WitnessIs();
    var s, di := Witness(), AnyPair().(rd := 0);
    StorePairThrows(s, di, [Region(0, Le(0, 8), Ram, false)]);
    assert ExecStorePair(s, di).s.mem[0].data != s.mem[0].data;
  }

  lemma EnterCanBeImprecise()
    ensures exists s, di :: ExecEnter(s, di).Threw? && ExecEnter(s, di).s.mem != s.mem
  {
    hide WriteMem; hide Le; hide FromLe; hide One; hide Witness; hide Wrap;
    OneWordWrites(One(), 0);
    OneWordWrites(Le(0, 8), 0);
    ZeroIsNotOne();
    WitnessIs();
    var s, di := Witness(), AnyPair();
    EnterThrows(s, di, [Region(0, Le(0, 8), Ram, false)]);
    assert ExecEnter(s, di).s.mem[0].data != s.mem[0].data;
  }

  lemma EnterThrows(s: State, di: Decoded, m: Mem)
    requires Wrap(s.regs[SP] as int - 16) == 0 && WriteMem(s.mem, 0, s.regs[LR], 8) == Done(m)
    requires WriteMem(m, 8, s.regs[FP], 8).Fault?
    ensures ExecEnter(s, di) == Threw(s.(mem := m))
  {
    hide WriteMem;
  }

  lemma ZeroIsNotOne()
    ensures Le(0, 8) != One()
  {
    Pow256Values();
    FromLeOfLe(0, 8);
    hide Le;
  }

  lemma VLoadThrows(s: State, di: Decoded, v: u64)
    requires ReadReg(s, di.rs2) == 0 && ReadMem(s.mem, 0, 8) == Done(v) && ReadMem(s.mem, 8, 8).Fault?
    ensures VLoadFrom(s, di, Unit, 0, 2) == Threw(SetLane(s, di.rd, 0, v))
  {
    hide ReadMem;
    var t := SetLane(s, di.rd, 0, v);
    assert LaneAddr(s, di, Unit, 0) == 0 && LaneAddr(t, di, Unit, 1) == 8;
    assert VLoadFrom(t, di, Unit, 1, 2) == Threw(t);
  }

  lemma VLoadCanBeImprecise()
    ensures exists s, di :: VLoadFrom(s, di, Unit, 0, 2).Threw? && VLoadFrom(s, di, Unit, 0, 2).s.vregs != s.vregs
  {
    hide ReadMem; hide FromLe; hide One; hide Witness; hide VLoadFrom;
    OneWordReads(One());
    WitnessIs();
    var s, di := Witness(), AnyPair();
    VLoadThrows(s, di, 1);
    assert SetLane(s, 1, 0, 1).vregs[1][0] == 1 && s.vregs[1][0] == 0;
  }

  lemma VStoreThrows(s: State, di: Decoded, m: Mem)
    requires ReadReg(s, di.rs2) == 0 && WriteMem(s.mem, 0, s.vregs[di.rd][0], 8) == Done(m)
    requires WriteMem(m, 8, s.vregs[di.rd][1], 8).Fault?
    ensures VStoreFrom(s, di, Unit, 0, 2) == Threw(s.(mem := m))
  {
    hide WriteMem;
    var t := s.(mem := m);
    assert LaneAddr(s, di, Unit, 0) == 0 && LaneAddr(t, di, Unit, 1) == 8;
    assert VStoreFrom(t, di, Unit, 1, 2) == Threw(t);
  }

  lemma VStoreCanBeImprecise()
    ensures exists s, di :: VStoreFrom(s, di, Unit, 0, 2).Threw? && VStoreFrom(s, di, Unit, 0, 2).s.mem != s.mem
  {
    hide WriteMem; hide Le; hide FromLe; hide One; hide Witness; hide VStoreFrom;
    OneWordWrites(One(), 0);
    OneWordWrites(Le(0, 8), 0);
    ZeroIsNotOne();
    WitnessIs();
    var s, di := Witness(), AnyPair();
    VStoreThrows(s, di, [Region(0, Le(0, 8), Ram, false)]);
    assert VStoreFrom(s, di, Unit, 0, 2).s.mem[0].data != s.mem[0].data;
  }
}
