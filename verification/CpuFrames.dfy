/**
  Stack discipline over whole steps: bracketed straight-line code fetched from a program, the
  timer ticking behind every instruction, with interrupts masked.
 */
module CpuFrames {
  import opened Ast
  import opened Words
  import opened Memory
  import opened MemoryTheorems
  import opened Cpu
  import opened CpuStack
  import opened CpuLoops

  /** The same state with other control registers. */
  function WithCsr(s: State, c: Csrs): State { s.(csr := c) }

  function OutcomeWith(o: Outcome, c: Csrs): Outcome {
    if o.Ran? then Ran(WithCsr(o.s, c)) else Threw(WithCsr(o.s, c))
  }

  lemma {:induction false} VLoadIgnoresCsr(s: State, di: Decoded, mode: VMode, i: nat, n: nat, c: Csrs)
    requires n <= 4
    ensures VLoadFrom(WithCsr(s, c), di, mode, i, n) == OutcomeWith(VLoadFrom(s, di, mode, i, n), c)
    decreases n - i
  {
    hide ReadMem; hide Wrap;
    if i < n {
      match ReadMem(s.mem, LaneAddr(s, di, mode, i), 8)
      case Fault(_) =>
      case Done(v) => VLoadIgnoresCsr(SetLane(s, di.rd, i, v), di, mode, i + 1, n, c);
    }
  }

  lemma {:induction false} VStoreIgnoresCsr(s: State, di: Decoded, mode: VMode, i: nat, n: nat, c: Csrs)
    requires n <= 4
    ensures VStoreFrom(WithCsr(s, c), di, mode, i, n) == OutcomeWith(VStoreFrom(s, di, mode, i, n), c)
    decreases n - i
  {
    hide WriteMem; hide Wrap;
    if i < n {
      match WriteMem(s.mem, LaneAddr(s, di, mode, i), s.vregs[di.rd][i], 8)
      case Fault(_) =>
      case Done(m) => VStoreIgnoresCsr(s.(mem := m), di, mode, i + 1, n, c);
    }
  }

  lemma RegistersIgnoreCsr(s: State, di: Decoded, c: Csrs)
    requires WellFormed(di) && Straight(di.kind) && !Accesses(di.kind)
    ensures Exec(WithCsr(s, c), di) == OutcomeWith(Exec(s, di), c)
  {
    hide Exec; hide AluResult; hide Wrap; hide Size;
    RegisterIs(s, di);
    RegisterIs(WithCsr(s, c), di);
  }

  lemma LoadIgnoresCsr(s: State, di: Decoded, width: nat, signed: bool, c: Csrs)
    requires width in {1, 2, 4, 8}
    ensures ExecLoad(WithCsr(s, c), di, width, signed) == OutcomeWith(ExecLoad(s, di, width, signed), c)
  {
    hide ReadMem; hide SignExtend; hide Wrap; hide Size;
  }

  lemma StoreIgnoresCsr(s: State, di: Decoded, size: nat, c: Csrs)
    requires size in {1, 2, 4, 8}
    ensures ExecStore(WithCsr(s, c), di, size) == OutcomeWith(ExecStore(s, di, size), c)
  {
    hide WriteMem; hide Wrap; hide Size;
  }

  lemma LoadPairIgnoresCsr(s: State, di: Decoded, c: Csrs)
    ensures ExecLoadPair(WithCsr(s, c), di) == OutcomeWith(ExecLoadPair(s, di), c)
  {
    hide ReadMem; hide WriteMem; hide Wrap; hide Size;
  }

  lemma StorePairIgnoresCsr(s: State, di: Decoded, c: Csrs)
    ensures ExecStorePair(WithCsr(s, c), di) == OutcomeWith(ExecStorePair(s, di), c)
  {
    hide ReadMem; hide WriteMem; hide Wrap; hide Size;
  }

  lemma PushIgnoresCsr(s: State, di: Decoded, c: Csrs)
    ensures ExecPush(WithCsr(s, c), di) == OutcomeWith(ExecPush(s, di), c)
  {
    hide ReadMem; hide WriteMem; hide Wrap; hide Size;
  }

  lemma PopIgnoresCsr(s: State, di: Decoded, c: Csrs)
    ensures ExecPop(WithCsr(s, c), di) == OutcomeWith(ExecPop(s, di), c)
  {
    hide ReadMem; hide WriteMem; hide Wrap; hide Size;
  }

  lemma EnterIgnoresCsr(s: State, di: Decoded, c: Csrs)
    ensures ExecEnter(WithCsr(s, c), di) == OutcomeWith(ExecEnter(s, di), c)
  {
    hide ReadMem; hide WriteMem; hide Wrap; hide Size;
  }

  lemma LeaveIgnoresCsr(s: State, di: Decoded, c: Csrs)
    ensures ExecLeave(WithCsr(s, c), di) == OutcomeWith(ExecLeave(s, di), c)
  {
    hide ReadMem; hide WriteMem; hide Wrap; hide Size;
  }

  lemma LoadReservedIgnoresCsr(s: State, di: Decoded, c: Csrs)
    ensures ExecLoadReserved(WithCsr(s, c), di) == OutcomeWith(ExecLoadReserved(s, di), c)
  {
    hide ReadMem; hide WriteMem; hide Wrap; hide Size;
  }

  lemma StoreConditionalIgnoresCsr(s: State, di: Decoded, c: Csrs)
    ensures ExecStoreConditional(WithCsr(s, c), di) == OutcomeWith(ExecStoreConditional(s, di), c)
  {
    hide ReadMem; hide WriteMem; hide Wrap; hide Size;
  }

  lemma VectorsIgnoreCsr(s: State, di: Decoded, mode: VMode, c: Csrs)
    ensures Cpu.Active(WithCsr(s, c)) == Cpu.Active(s) <= 4
    ensures Finish(VLoadFrom(WithCsr(s, c), di, mode, 0, Cpu.Active(s)), di)
      == OutcomeWith(Finish(VLoadFrom(s, di, mode, 0, Cpu.Active(s)), di), c)
    ensures Finish(VStoreFrom(WithCsr(s, c), di, mode, 0, Cpu.Active(s)), di)
      == OutcomeWith(Finish(VStoreFrom(s, di, mode, 0, Cpu.Active(s)), di), c)
  {
    hide VLoadFrom; hide VStoreFrom; hide Wrap; hide Size;
    VLoadIgnoresCsr(s, di, mode, 0, Cpu.Active(s), c);
    VStoreIgnoresCsr(s, di, mode, 0, Cpu.Active(s), c);
  }

  /** Straight-line code neither reads nor writes a control register. */
  lemma StraightIgnoresCsr(s: State, di: Decoded, c: Csrs)
    requires WellFormed(di) && Straight(di.kind)
    ensures Exec(WithCsr(s, c), di) == OutcomeWith(Exec(s, di), c)
  {
    hide Exec; hide ExecLoad; hide ExecStore; hide ExecLoadPair; hide ExecStorePair; hide ExecPush; hide ExecPop;
    hide ExecEnter; hide ExecLeave; hide ExecLoadReserved; hide ExecStoreConditional; hide VLoadFrom; hide VStoreFrom;
    hide Finish; hide WithCsr; hide OutcomeWith; hide Cpu.Active;
    if !Accesses(di.kind) {
      RegistersIgnoreCsr(s, di, c);
    } else {
      AccessIs(s, di);
      AccessIs(WithCsr(s, c), di);
      if di.kind.LoadInst? { LoadIgnoresCsr(s, di, di.kind.width, di.kind.signed, c); }
      if di.kind.StoreInst? { StoreIgnoresCsr(s, di, di.kind.size, c); }
      LoadPairIgnoresCsr(s, di, c);
      StorePairIgnoresCsr(s, di, c);
      PushIgnoresCsr(s, di, c);
      PopIgnoresCsr(s, di, c);
      EnterIgnoresCsr(s, di, c);
      LeaveIgnoresCsr(s, di, c);
      LoadReservedIgnoresCsr(s, di, c);
      StoreConditionalIgnoresCsr(s, di, c);
      if di.kind.VLoad? { VectorsIgnoreCsr(s, di, di.kind.from, c); }
      if di.kind.VStore? { VectorsIgnoreCsr(s, di, di.kind.to, c); }
    }
  }

  /** `n` ticks later. */
  function Later(s: State, n: nat): State { WithCsr(s, s.csr.(stime := Wrap(s.csr.stime + n))) }

  lemma StepIsExec(s: State, di: Decoded, n: nat)
    requires WellFormed(di) && Straight(di.kind) && Exec(s, di).Ran? && Masked(s)
    ensures Exec(Later(s, n), di).Ran? && Step(Later(s, n), Some(di)) == Later(Exec(s, di).s, n + 1)
    ensures Masked(Exec(s, di).s)
  {
    hide Exec; hide WellFormed; hide SignalTrap; hide Straight;
    StraightIgnoresCsr(s, di, Later(s, n).csr);
    StraightAdvances(s, di);
    TwoWraps(s.csr.stime + n, 1);
  }

  lemma TwoWraps(a: int, b: int)
    ensures Wrap(Wrap(a) + b) == Wrap(a + b)
  {
  }

  /** Masked steps do what the instructions do, but for the time. */
  lemma {:induction false} StepsAreExecs(s: State, list: seq<Inst>, n: nat)
    requires BodyOk(list) && Masked(s) && RunList(s, list).Ran?
    ensures Smooth(Later(s, n), list) && StepList(Later(s, n), list) == Later(RunList(s, list).s, n + |list|)
    decreases |list|
  {
    hide Exec; hide Step; hide Straight; hide Later; hide Masked;
    if list != [] {
      assert list[0] in list;
      StepIsExec(s, list[0], n);
      StepsAreExecs(Exec(s, list[0]).s, list[1..], n + 1);
    }
  }

  lemma NoTicks(s: State)
    ensures Later(s, 0) == s
  {
  }

  /**
    Bracketed straight-line code fetched step by step: with interrupts masked, a disciplined run
    ends behind the code with r30, r31 and every byte from the entry stack pointer up as at entry.
   */
  lemma SteppedDiscipline(p: Program, s: State, c: Bracketed)
    requires Encoded(c) && Separate(s.mem) && Disciplined(s, c) && Masked(s)
    requires BodyOk(Flatten(c)) && Placed(p, s.pc, Flatten(c))
    ensures var t := RunSteps(p, s, |Flatten(c)|);
      Quiet(s, t) && t.pc == EndOf(s.pc, Flatten(c)) && Masked(t) && t.loopCount == s.loopCount
  {
    hide Disciplined; hide Encoded; hide Separate; hide RunList; hide StepList; hide Smooth; hide RunSteps; hide Placed;
    hide EndOf; hide BodyOk; hide Masked; hide SameShape; hide View;
    StackDiscipline(s, c);
    NoTicks(s);
    StepsAreExecs(s, Flatten(c), 0);
    BodyPass(p, s, Flatten(c));
  }
}
