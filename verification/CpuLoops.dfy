/**
  Hardware loops: LOOP.SET n, a straight-line body, LOOP.DECBR back to the start of the body.
  With interrupts masked the body runs exactly max(n, 1) times, for every 64-bit n.
 */
module CpuLoops {
  import opened Ast
  import opened Words
  import opened Memory
  import opened Cpu
  import CpuFaults

  // ---- programs ----

  /** The instruction at each address. */
  type Program = map<u64, Inst>

  function Fetch(p: Program, s: State): Option<Inst> {
    if s.pc in p then Some(p[s.pc]) else None
  }

  function RunSteps(p: Program, s: State, n: nat): State
    decreases n
  {
    if n == 0 then s else RunSteps(p, Step(s, Fetch(p, s)), n - 1)
  }

  lemma {:induction false} RunStepsAdd(p: Program, s: State, m: nat, n: nat)
    ensures RunSteps(p, s, m + n) == RunSteps(p, RunSteps(p, s, m), n)
    decreases m
  {
    hide Step; hide Fetch;
    if m > 0 { RunStepsAdd(p, Step(s, Fetch(p, s)), m - 1, n); }
  }

  /** `list` lies in the program from address `at` on. */
  predicate Placed(p: Program, at: u64, list: seq<Inst>)
    decreases |list|
  {
    list == [] || (at in p && p[at] == list[0] && Placed(p, Wrap(at + Size(list[0])), list[1..]))
  }

  function EndOf(at: u64, list: seq<Inst>): u64
    decreases |list|
  {
    if list == [] then at else EndOf(Wrap(at + Size(list[0])), list[1..])
  }

  // ---- straight-line code ----

  predicate Straight(k: Kind) {
    k.Hint? || k.Alu? || k.LoadInst? || k.StoreInst? || k.LoadPair? || k.StorePair? || k.Push? || k.Pop? || k.Enter?
      || k.Leave?
    || k.AdjSp? || k.Frame? || k.LoadReserved? || k.StoreConditional? || k.VSetVl? || k.VLoad? || k.VStore?
  }

  predicate Masked(s: State) { !s.csr.sstatus.sie }

  /** Same program counter offset, loop counter and control registers. */
  predicate Advanced(s: State, t: State, size: nat) {
    t.pc == Wrap(s.pc + size) && t.loopCount == s.loopCount && t.csr == s.csr
  }

  lemma {:induction false} VLoadKeeps(s: State, di: Decoded, mode: VMode, i: nat, n: nat)
    requires n <= 4
    ensures var t := VLoadFrom(s, di, mode, i, n).s; t.pc == s.pc && t.loopCount == s.loopCount && t.csr == s.csr
    decreases n - i
  {
    hide ReadMem; hide LaneAddr;
    if i < n {
      match ReadMem(s.mem, LaneAddr(s, di, mode, i), 8)
      case Fault(_) =>
      case Done(v) => VLoadKeeps(SetLane(s, di.rd, i, v), di, mode, i + 1, n);
    }
  }

  lemma {:induction false} VStoreKeeps(s: State, di: Decoded, mode: VMode, i: nat, n: nat)
    requires n <= 4
    ensures var t := VStoreFrom(s, di, mode, i, n).s; t.pc == s.pc && t.loopCount == s.loopCount && t.csr == s.csr
    decreases n - i
  {
    hide WriteMem; hide LaneAddr;
    if i < n {
      match WriteMem(s.mem, LaneAddr(s, di, mode, i), s.vregs[di.rd][i], 8)
      case Fault(_) =>
      case Done(m) => VStoreKeeps(s.(mem := m), di, mode, i + 1, n);
    }
  }

  /** Nothing but the program counter moves, if the instruction ran. */
  predicate Passed(s: State, o: Outcome, size: nat) { o.Ran? ==> Advanced(s, o.s, size) }

  lemma ScalarsAdvance(s: State, di: Decoded)
    requires WellFormed(di)
    ensures di.kind.LoadInst? ==> Passed(s, ExecLoad(s, di, di.kind.width, di.kind.signed), Size(di))
    ensures di.kind.StoreInst? ==> Passed(s, ExecStore(s, di, di.kind.size), Size(di))
    ensures Passed(s, ExecLoadPair(s, di), Size(di)) && Passed(s, ExecStorePair(s, di), Size(di))
    ensures Passed(s, ExecLoadReserved(s, di), Size(di)) && Passed(s, ExecStoreConditional(s, di), Size(di))
  {
    hide ReadMem; hide WriteMem; hide SignExtend; hide Wrap; hide Size;
  }

  lemma StackAdvances(s: State, di: Decoded)
    ensures Passed(s, ExecPush(s, di), Size(di)) && Passed(s, ExecPop(s, di), Size(di))
    ensures Passed(s, ExecEnter(s, di), Size(di)) && Passed(s, ExecLeave(s, di), Size(di))
  {
    hide ReadMem; hide WriteMem; hide Wrap; hide Size;
  }

  lemma VectorsAdvance(s: State, di: Decoded, mode: VMode)
    ensures Passed(s, Finish(VLoadFrom(s, di, mode, 0, Cpu.Active(s)), di), Size(di))
    ensures Passed(s, Finish(VStoreFrom(s, di, mode, 0, Cpu.Active(s)), di), Size(di))
  {
    hide VLoadFrom; hide VStoreFrom; hide Wrap; hide Size;
    VLoadKeeps(s, di, mode, 0, Cpu.Active(s));
    VStoreKeeps(s, di, mode, 0, Cpu.Active(s));
  }

  lemma AccessAdvances(s: State, di: Decoded)
    requires WellFormed(di) && Straight(di.kind) && Accesses(di.kind) && Exec(s, di).Ran?
    ensures Advanced(s, Exec(s, di).s, Size(di))
  {
    hide Exec; hide ExecLoad; hide ExecStore; hide ExecLoadPair; hide ExecStorePair; hide ExecPush; hide ExecPop;
    hide ExecEnter; hide ExecLeave; hide ExecLoadReserved; hide ExecStoreConditional; hide VLoadFrom; hide VStoreFrom;
    hide Finish; hide Advanced; hide Cpu.Active;
    AccessIs(s, di);
    ScalarsAdvance(s, di);
    StackAdvances(s, di);
    if di.kind.VLoad? { VectorsAdvance(s, di, di.kind.from); }
    if di.kind.VStore? { VectorsAdvance(s, di, di.kind.to); }
  }

  lemma RegisterAdvances(s: State, di: Decoded)
    requires WellFormed(di) && Straight(di.kind) && !Accesses(di.kind)
    ensures Exec(s, di).Ran? && Advanced(s, Exec(s, di).s, Size(di))
  {
    hide Exec; hide AluResult; hide Wrap; hide Size; hide SignalTrap;
    RegisterIs(s, di);
  }

  lemma StraightAdvances(s: State, di: Decoded)
    requires WellFormed(di) && Straight(di.kind) && Exec(s, di).Ran?
    ensures Advanced(s, Exec(s, di).s, Size(di))
  {
    hide Exec; hide Advanced; hide Straight; hide Accesses;
    if Accesses(di.kind) { AccessAdvances(s, di); } else { RegisterAdvances(s, di); }
  }

  lemma StraightStep(s: State, di: Decoded)
    requires WellFormed(di) && Straight(di.kind) && Exec(s, di).Ran? && Masked(s)
    ensures var t := Step(s, Some(di)); t.pc == Wrap(s.pc + Size(di)) && t.loopCount == s.loopCount && Masked(t)
  {
    hide Exec; hide SignalTrap; hide Wrap; hide Size; hide Straight;
    StraightAdvances(s, di);
  }

  // ---- one pass of the body ----

  /** The state after stepping through the list. */
  function StepList(s: State, list: seq<Inst>): State
    decreases |list|
  {
    if list == [] then s else StepList(Step(s, Some(list[0])), list[1..])
  }

  /** No instruction of the list throws. */
  predicate Smooth(s: State, list: seq<Inst>)
    decreases |list|
  {
    list == [] || (Exec(s, list[0]).Ran? && Smooth(Step(s, Some(list[0])), list[1..]))
  }

  predicate BodyOk(list: seq<Inst>) {
    forall di | di in list :: Straight(di.kind)
  }

  lemma {:induction false} BodyPass(p: Program, s: State, list: seq<Inst>)
    requires BodyOk(list) && Placed(p, s.pc, list) && Smooth(s, list) && Masked(s)
    ensures var t := StepList(s, list);
      RunSteps(p, s, |list|) == t && t.pc == EndOf(s.pc, list) && t.loopCount == s.loopCount && Masked(t)
    decreases |list|
  {
    hide Exec; hide Step; hide Straight; hide Wrap; hide Size; hide Masked;
    if list != [] {
      var di := list[0];
      assert di in list;
      StraightStep(s, di);
      BodyPass(p, Step(s, Some(di)), list[1..]);
    }
  }

  // ---- the loop ----

  /** One iteration: the body, then LOOP.DECBR. */
  function Iterate(s: State, list: seq<Inst>, dec: Inst, k: nat): State
    decreases k
  {
    if k == 0 then s else Step(StepList(Iterate(s, list, dec, k - 1), list), Some(dec))
  }

  /** Steps taken by `k` iterations over a body of `len` instructions. */
  function StepsOf(k: nat, len: nat): nat {
    if k == 0 then 0 else StepsOf(k - 1, len) + len + 1
  }

  lemma {:induction false} StepsInAll(k: nat, len: nat)
    ensures StepsOf(k, len) == k * (len + 1)
  {
    if k > 0 {
      StepsInAll(k - 1, len);
      assert k * (len + 1) == (k - 1) * (len + 1) + (len + 1);
    }
  }

  /** LOOP.DECBR in the three cases of the counter. */
  lemma DecBrStep(s: State, dec: Inst)
    requires dec.kind.LoopDecBr? && Masked(s)
    ensures var t := Step(s, Some(dec));
      Masked(t) && t.loopCount == (if s.loopCount == 0 then 0 else s.loopCount - 1)
      && t.pc == if s.loopCount > 1 then Target(s, dec) else Wrap(s.pc + Size(dec))
  {
    hide SignalTrap; hide Wrap; hide Size; hide Target;
  }

  function Passes(n: u64): nat { if n == 0 then 1 else n }

  /** The body in place at `s.pc`, followed by a LOOP.DECBR that branches back to it. */
  predicate LoopPlaced(p: Program, s: State, list: seq<Inst>, dec: Inst) {
    var end := EndOf(s.pc, list);
    BodyOk(list) && Placed(p, s.pc, list) && end in p && p[end] == dec && dec.kind.LoopDecBr?
      && Wrap(end + dec.imm * 4) == s.pc
  }

  /**
    After `k` iterations, fewer than the passes the count asks for, control is back at the body with `k`
    counted off.
   */
  lemma {:induction false} LoopProgress(p: Program, s: State, list: seq<Inst>, dec: Inst, k: nat)
    requires LoopPlaced(p, s, list, dec) && Masked(s) && k < Passes(s.loopCount)
    requires forall j: nat | j < Passes(s.loopCount) :: Smooth(Iterate(s, list, dec, j), list)
    ensures var t := Iterate(s, list, dec, k);
      t.pc == s.pc && Masked(t) && t.loopCount == s.loopCount - k && RunSteps(p, s, StepsOf(k, |list|)) == t
    decreases k
  {
    hide Step; hide StepList; hide Smooth; hide Wrap; hide Masked; hide EndOf; hide Placed; hide BodyOk;
    if k > 0 {
      LoopProgress(p, s, list, dec, k - 1);
      PassOnce(p, s, list, dec, k - 1);
    }
  }

  /** One more iteration from a state at the start of the body. */
  lemma PassOnce(p: Program, s: State, list: seq<Inst>, dec: Inst, k: nat)
    requires LoopPlaced(p, s, list, dec) && Smooth(Iterate(s, list, dec, k), list)
    requires var t := Iterate(s, list, dec, k); t.pc == s.pc && Masked(t) && RunSteps(p, s, StepsOf(k, |list|)) == t
    ensures var t, u := Iterate(s, list, dec, k), Iterate(s, list, dec, k + 1);
      Masked(u) && u.loopCount == (if t.loopCount == 0 then 0 else t.loopCount - 1)
      && u.pc == (if t.loopCount > 1 then s.pc else Wrap(EndOf(s.pc, list) + Size(dec)))
      && RunSteps(p, s, StepsOf(k + 1, |list|)) == u
  {
    hide Step; hide StepList; hide Smooth; hide Wrap; hide Masked; hide EndOf; hide Placed; hide RunSteps;
    hide Iterate; hide BodyOk;
    var t := Iterate(s, list, dec, k);
    BodyPass(p, t, list);
    var b := StepList(t, list);
    DecBrStep(b, dec);
    IterateOnce(s, list, dec, k);
    RunStepsAdd(p, s, StepsOf(k, |list|), |list|);
    RunStepsAdd(p, s, StepsOf(k, |list|) + |list|, 1);
    OneStep(p, b);
    assert StepsOf(k + 1, |list|) == StepsOf(k, |list|) + |list| + 1;
  }

  lemma IterateOnce(s: State, list: seq<Inst>, dec: Inst, k: nat)
    ensures Iterate(s, list, dec, k + 1) == Step(StepList(Iterate(s, list, dec, k), list), Some(dec))
  {
    hide Step; hide StepList;
  }

  lemma OneStep(p: Program, s: State)
    ensures RunSteps(p, s, 1) == Step(s, Fetch(p, s))
  {
    hide Step; hide Fetch;
    assert RunSteps(p, Step(s, Fetch(p, s)), 0) == Step(s, Fetch(p, s));
  }

  /**
    The loop runs its body exactly max(n, 1) times for the count n it starts with, each time
    from the start of the body, then leaves with count 0 behind LOOP.DECBR.
   */
  lemma LoopCount(p: Program, s: State, list: seq<Inst>, dec: Inst)
    requires LoopPlaced(p, s, list, dec) && Masked(s)
    requires forall j: nat | j < Passes(s.loopCount) :: Smooth(Iterate(s, list, dec, j), list)
    ensures forall j: nat | j < Passes(s.loopCount) :: Iterate(s, list, dec, j).pc == s.pc
    ensures var t := Iterate(s, list, dec, Passes(s.loopCount));
      RunSteps(p, s, StepsOf(Passes(s.loopCount), |list|)) == t
      && t.pc == Wrap(EndOf(s.pc, list) + Size(dec)) && t.loopCount == 0
  {
    hide Step; hide StepList; hide Smooth; hide Wrap; hide Masked; hide EndOf; hide Placed; hide RunSteps;
    hide Iterate; hide BodyOk;
    hide LoopPlaced;
    forall j: nat | j < Passes(s.loopCount) ensures Iterate(s, list, dec, j).pc == s.pc {
      LoopProgress(p, s, list, dec, j);
    }
    var k := Passes(s.loopCount) - 1;
    LoopProgress(p, s, list, dec, k);
    PassOnce(p, s, list, dec, k);
  }

  /** LOOP.SET takes the count from its register; the loop that follows runs it down. */
  lemma LoopFromSet(p: Program, s: State, init: Inst, list: seq<Inst>, dec: Inst)
    requires s.pc in p && p[s.pc] == init && init.kind.LoopSet? && Masked(s)
    requires LoopPlaced(p, Step(s, Some(init)), list, dec)
    requires forall j: nat | j < Passes(ReadReg(s, init.rs1)) :: Smooth(Iterate(Step(s, Some(init)), list, dec, j),
      list)
    ensures var n := Passes(ReadReg(s, init.rs1));
      var t := RunSteps(p, s, 1 + StepsOf(n, |list|));
      t.loopCount == 0 && t.pc == Wrap(EndOf(Wrap(s.pc + Size(init)), list) + Size(dec))
  {
    hide StepList; hide Smooth; hide EndOf; hide Placed; hide RunSteps; hide Iterate; hide BodyOk; hide LoopPlaced;
    hide Step; hide Wrap;
    SetStep(s, init);
    var t := Step(s, Some(init));
    LoopCount(p, t, list, dec);
    OneStep(p, s);
    RunStepsAdd(p, s, 1, StepsOf(Passes(t.loopCount), |list|));
  }

  lemma SetStep(s: State, init: Inst)
    requires init.kind.LoopSet? && Masked(s)
    ensures var t := Step(s, Some(init));
      t.loopCount == ReadReg(s, init.rs1) && t.pc == Wrap(s.pc + Size(init)) && Masked(t)
  {
    hide SignalTrap; hide Wrap; hide Size;
  }

  /** A body that accesses no memory never throws, so its loops always run to the end. */
  lemma {:induction false} RegisterBodySmooth(s: State, list: seq<Inst>)
    requires BodyOk(list) && forall di | di in list :: !Accesses(di.kind)
    ensures Smooth(s, list)
    decreases |list|
  {
    hide Exec; hide Step; hide Straight; hide Accesses;
    if list != [] {
      assert list[0] in list;
      CpuFaults.OthersNeverThrow(s, list[0]);
      RegisterBodySmooth(Step(s, Some(list[0])), list[1..]);
    }
  }

  /** For such a body the count is exact for every machine state with interrupts masked. */
  lemma RegisterLoopCount(p: Program, s: State, list: seq<Inst>, dec: Inst)
    requires LoopPlaced(p, s, list, dec) && Masked(s) && forall di | di in list :: !Accesses(di.kind)
    ensures var t := RunSteps(p, s, StepsOf(Passes(s.loopCount), |list|));
      t.loopCount == 0 && t.pc == Wrap(EndOf(s.pc, list) + Size(dec))
  {
    hide Step; hide StepList; hide Smooth; hide Wrap; hide Masked; hide EndOf; hide Placed; hide RunSteps;
    hide Iterate; hide BodyOk;
    forall j: nat | j < Passes(s.loopCount) ensures Smooth(Iterate(s, list, dec, j), list) {
      RegisterBodySmooth(Iterate(s, list, dec, j), list);
    }
    LoopCount(p, s, list, dec);
  }
}
