/**
  LR.D and SC.D over whole runs: a conditional store succeeds exactly when the last completed
  LR.D or successful SC.D was an LR.D of the same address.
 */
module CpuAtomics {
  import opened Ast
  import opened Words
  import opened Memory
  import opened Cpu
  import CpuFaults

  // ---- events ----

  datatype Event = Linked(addr: u64) | Stored(addr: u64) | Other

  /** A completed LR.D, a successful SC.D, or anything else. */
  function EventOf(s: State, inst: Option<Decoded>): Event
    requires inst.Some? ==> WellFormed(inst.value)
  {
    if inst.None? || Exec(s, inst.value).Threw? then Other
    else if inst.value.kind.LoadReserved? then Linked(ReadReg(s, inst.value.rs1))
    else if inst.value.kind.StoreConditional? && HoldsReservation(s, ReadReg(s, inst.value.rs1))
      then Stored(ReadReg(s, inst.value.rs1))
    else Other
  }

  lemma {:induction false} VLoadKeepsReservation(s: State, di: Decoded, mode: VMode, i: nat, n: nat)
    requires n <= 4
    ensures var t := VLoadFrom(s, di, mode, i, n).s;
      t.reservationAddr == s.reservationAddr && t.reservationValid == s.reservationValid
    decreases n - i
  {
    hide ReadMem; hide LaneAddr;
    if i < n {
      match ReadMem(s.mem, LaneAddr(s, di, mode, i), 8)
      case Fault(_) =>
      case Done(v) => VLoadKeepsReservation(SetLane(s, di.rd, i, v), di, mode, i + 1, n);
    }
  }

  lemma {:induction false} VStoreKeepsReservation(s: State, di: Decoded, mode: VMode, i: nat, n: nat)
    requires n <= 4
    ensures var t := VStoreFrom(s, di, mode, i, n).s;
      t.reservationAddr == s.reservationAddr && t.reservationValid == s.reservationValid
    decreases n - i
  {
    hide WriteMem; hide LaneAddr;
    if i < n {
      match WriteMem(s.mem, LaneAddr(s, di, mode, i), s.vregs[di.rd][i], 8)
      case Fault(_) =>
      case Done(m) => VStoreKeepsReservation(s.(mem := m), di, mode, i + 1, n);
    }
  }

  /** The reservation of `t` is what the event says, given the reservation of `s`. */
  predicate Follows(s: State, e: Event, t: State) {
    match e
    case Linked(a) => t.reservationValid && t.reservationAddr == a
    case Stored(_) => !t.reservationValid
    case Other => t.reservationValid == s.reservationValid && t.reservationAddr == s.reservationAddr
  }

  /** LR.D and SC.D change the reservation as their event says. */
  lemma AtomicReservation(s: State, di: Decoded)
    requires WellFormed(di) && (di.kind.LoadReserved? || di.kind.StoreConditional?)
    ensures Follows(s, EventOf(s, Some(di)), Exec(s, di).s)
  {
    hide ReadMem; hide WriteMem; hide Wrap; hide Size;
  }

  lemma ScalarReservation(s: State, di: Decoded)
    requires WellFormed(di)
    ensures di.kind.LoadInst? ==> Follows(s, Other, ExecLoad(s, di, di.kind.width, di.kind.signed).s)
    ensures di.kind.StoreInst? ==> Follows(s, Other, ExecStore(s, di, di.kind.size).s)
    ensures Follows(s, Other, ExecLoadPair(s, di).s) && Follows(s, Other, ExecStorePair(s, di).s)
    ensures Follows(s, Other, ExecLoadNonZero(s, di).s)
  {
    hide ReadMem; hide WriteMem; hide SignExtend; hide Wrap; hide Size; hide SignalTrap;
    CpuFaults.TrapKeeps(s, 9, s.pc);
  }

  lemma StackReservation(s: State, di: Decoded)
    ensures Follows(s, Other, ExecPush(s, di).s) && Follows(s, Other, ExecPop(s, di).s)
    ensures Follows(s, Other, ExecEnter(s, di).s) && Follows(s, Other, ExecLeave(s, di).s)
  {
    hide ReadMem; hide WriteMem; hide Wrap; hide Size;
  }

  lemma VectorReservation(s: State, di: Decoded, mode: VMode)
    ensures Follows(s, Other, Finish(VLoadFrom(s, di, mode, 0, Cpu.Active(s)), di).s)
    ensures Follows(s, Other, Finish(VStoreFrom(s, di, mode, 0, Cpu.Active(s)), di).s)
  {
    hide VLoadFrom; hide VStoreFrom; hide Wrap; hide Size;
    VLoadKeepsReservation(s, di, mode, 0, Cpu.Active(s));
    VStoreKeepsReservation(s, di, mode, 0, Cpu.Active(s));
  }

  lemma AccessReservation(s: State, di: Decoded)
    requires WellFormed(di) && Accesses(di.kind) && !di.kind.LoadReserved? && !di.kind.StoreConditional?
    ensures Follows(s, Other, Exec(s, di).s)
  {
    hide Exec; hide ExecLoad; hide ExecStore; hide ExecLoadPair; hide ExecStorePair; hide ExecLoadNonZero;
    hide ExecPush; hide ExecPop; hide ExecEnter; hide ExecLeave; hide VLoadFrom; hide VStoreFrom; hide Finish;
    hide Follows;
    hide Cpu.Active;
    AccessIs(s, di);
    ScalarReservation(s, di);
    StackReservation(s, di);
    if di.kind.VLoad? { VectorReservation(s, di, di.kind.from); }
    if di.kind.VStore? { VectorReservation(s, di, di.kind.to); }
  }

  lemma OtherReservation(s: State, di: Decoded)
    requires WellFormed(di) && !Accesses(di.kind)
    ensures Follows(s, Other, Exec(s, di).s)
  {
    hide ExecLoad; hide ExecStore; hide ExecLoadPair; hide ExecStorePair; hide ExecLoadNonZero; hide ExecPush;
    hide ExecPop; hide ExecEnter; hide ExecLeave; hide ExecLoadReserved; hide ExecStoreConditional; hide VLoadFrom;
    hide VStoreFrom; hide Finish;
    hide AluResult; hide Wrap; hide ReadCsr; hide WriteCsr; hide Holds; hide Size; hide SignalTrap; hide Target;
    CpuFaults.TrapKeeps(s, 10, s.pc);
    CpuFaults.TrapKeeps(s, 8, s.pc);
  }

  /** The reservation after an instruction, from its event alone. */
  lemma ExecReservation(s: State, di: Decoded)
    requires WellFormed(di)
    ensures Follows(s, EventOf(s, Some(di)), Exec(s, di).s)
  {
    hide Exec; hide Follows; hide Accesses;
    if di.kind.LoadReserved? || di.kind.StoreConditional? {
      AtomicReservation(s, di);
    } else if Accesses(di.kind) {
      AccessReservation(s, di);
    } else {
      OtherReservation(s, di);
    }
  }

  lemma StepReservation(s: State, inst: Option<Decoded>)
    requires inst.Some? ==> WellFormed(inst.value)
    ensures Follows(s, EventOf(s, inst), Step(s, inst))
  {
    hide Exec; hide SignalTrap; hide Wrap;
    if inst.None? {
      CpuFaults.TrapKeeps(s, 9, s.pc);
    } else {
      ExecReservation(s, inst.value);
      var t := Exec(s, inst.value).s;
      CpuFaults.TrapKeeps(t, 2, t.pc);
      CpuFaults.TrapKeeps(t.(csr := t.csr.(stime := Wrap(t.csr.stime + 1))), TWO64 / 2, 0);
    }
  }

  // ---- runs ----

  predicate Steps(insts: seq<Option<Decoded>>) {
    forall inst | inst in insts :: inst.Some? ==> WellFormed(inst.value)
  }

  /** The state after the first `n` steps, whatever the decoder produced for them. */
  function StateAt(s: State, insts: seq<Option<Decoded>>, n: nat): State
    requires Steps(insts) && n <= |insts|
  {
    if n == 0 then s else assert insts[n - 1] in insts; Step(StateAt(s, insts, n - 1), insts[n - 1])
  }

  function EventAt(s: State, insts: seq<Option<Decoded>>, n: nat): Event
    requires Steps(insts) && n < |insts|
  {
    assert insts[n] in insts;
    EventOf(StateAt(s, insts, n), insts[n])
  }

  /** The last LR.D or successful SC.D of the first `n` steps. */
  function LastEvent(s: State, insts: seq<Option<Decoded>>, n: nat): Event
    requires Steps(insts) && n <= |insts|
  {
    if n == 0 then Other
    else if EventAt(s, insts, n - 1).Other? then LastEvent(s, insts, n - 1)
    else EventAt(s, insts, n - 1)
  }

  /** Along a run from no reservation, the reservation held is that of the last event, if that was an LR.D. */
  lemma {:induction false} ReservationIsLastLink(s: State, insts: seq<Option<Decoded>>, n: nat)
    requires Steps(insts) && n <= |insts| && !s.reservationValid
    ensures var t := StateAt(s, insts, n);
      if LastEvent(s, insts, n).Linked? then t.reservationValid && t.reservationAddr == LastEvent(s, insts, n).addr
      else !t.reservationValid
    decreases n
  {
    hide EventOf; hide Step; hide WellFormed;
    if n > 0 {
      ReservationIsLastLink(s, insts, n - 1);
      assert insts[n - 1] in insts;
      StepReservation(StateAt(s, insts, n - 1), insts[n - 1]);
    }
  }

  /** An SC.D whose store does not fault succeeds exactly when the last event is an LR.D of its address. */
  lemma StoreConditionalSucceedsExactlyWhen(s: State, insts: seq<Option<Decoded>>, n: nat)
    requires Steps(insts) && n < |insts| && !s.reservationValid
    requires insts[n].Some? && insts[n].value.kind.StoreConditional?
    requires var t, di := StateAt(s, insts, n), insts[n].value;
      WriteMem(t.mem, ReadReg(t, di.rs1), ReadReg(t, di.rs2), 8).Done?
    ensures var t, di := StateAt(s, insts, n), insts[n].value;
      EventAt(s, insts, n).Stored? <==> LastEvent(s, insts, n) == Linked(ReadReg(t, di.rs1))
    ensures var t, di := StateAt(s, insts, n), insts[n].value;
      di.rd != 0 ==> ExecStoreConditional(t, di).s.regs[di.rd] == (if EventAt(s, insts, n).Stored? then 0 else 1)
  {
    hide StateAt; hide WriteMem; hide LastEvent; hide Wrap; hide Size;
    ReservationIsLastLink(s, insts, n);
    assert insts[n] in insts;
    var t, di := StateAt(s, insts, n), insts[n].value;
    assert Exec(t, di) == ExecStoreConditional(t, di);
  }

  function CountLinked(s: State, insts: seq<Option<Decoded>>, n: nat): nat
    requires Steps(insts) && n <= |insts|
  {
    if n == 0 then 0 else CountLinked(s, insts, n - 1) + if EventAt(s, insts, n - 1).Linked? then 1 else 0
  }

  function CountStored(s: State, insts: seq<Option<Decoded>>, n: nat): nat
    requires Steps(insts) && n <= |insts|
  {
    if n == 0 then 0 else CountStored(s, insts, n - 1) + if EventAt(s, insts, n - 1).Stored? then 1 else 0
  }

  /** Successful SC.D steps never outnumber LR.D steps; a held reservation is one in hand. */
  lemma {:induction false} StoresNeverOutnumberLinks(s: State, insts: seq<Option<Decoded>>, n: nat)
    requires Steps(insts) && n <= |insts| && !s.reservationValid
    ensures CountStored(s, insts, n)
      + (if StateAt(s, insts, n).reservationValid then 1 else 0) <= CountLinked(s, insts, n)
    decreases n
  {
    hide EventOf; hide Step; hide WellFormed;
    if n > 0 {
      StoresNeverOutnumberLinks(s, insts, n - 1);
      var t := StateAt(s, insts, n - 1);
      assert insts[n - 1] in insts;
      StepReservation(t, insts[n - 1]);
      StoredWasReserved(t, insts[n - 1]);
    }
  }

  lemma StoredWasReserved(s: State, inst: Option<Decoded>)
    requires inst.Some? ==> WellFormed(inst.value)
    ensures EventOf(s, inst).Stored? ==> s.reservationValid && s.reservationAddr == EventOf(s, inst).addr
  {
    hide Exec;
  }

  /** Every successful SC.D follows an LR.D of its address with neither kind of event in between. */
  lemma {:induction false} StoredFollowsLink(s: State, insts: seq<Option<Decoded>>, n: nat) returns (j: nat)
    requires Steps(insts) && n < |insts| && !s.reservationValid && EventAt(s, insts, n).Stored?
    ensures j < n && EventAt(s, insts, j) == Linked(EventAt(s, insts, n).addr)
    ensures forall m | j < m < n :: EventAt(s, insts, m).Other?
  {
    hide EventOf; hide Step; hide WellFormed;
    ReservationIsLastLink(s, insts, n);
    assert insts[n] in insts;
    StoredWasReserved(StateAt(s, insts, n), insts[n]);
    j := LastAt(s, insts, n);
  }

  lemma {:induction false} LastAt(s: State, insts: seq<Option<Decoded>>, n: nat) returns (j: nat)
    requires Steps(insts) && n <= |insts| && !LastEvent(s, insts, n).Other?
    ensures j < n && EventAt(s, insts, j) == LastEvent(s, insts, n)
      && forall m | j < m < n :: EventAt(s, insts, m).Other?
    decreases n
  {
    hide EventAt;
    if EventAt(s, insts, n - 1).Other? {
      j := LastAt(s, insts, n - 1);
    } else {
      j := n - 1;
    }
  }

  /** A plain store to the reserved address does not cancel the reservation: the SC.D after it succeeds. */
  lemma PlainStoreDoesNotCancel(s: State, st: Decoded, sc: Decoded)
    requires WellFormed(st) && st.kind.StoreInst? && sc.kind.StoreConditional? && Exec(s, st).Ran?
    requires HoldsReservation(s, ReadReg(s, sc.rs1)) && Wrap(ReadReg(s, st.rs1) + st.imm) == ReadReg(s, sc.rs1)
    ensures var t := Step(s, Some(st)); HoldsReservation(t, ReadReg(s, sc.rs1))
  {
    hide Exec; hide Step; hide Wrap;
    StepReservation(s, Some(st));
  }
}
