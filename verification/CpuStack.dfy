/**
  Stack discipline: a well-bracketed run of PUSH..POP and ENTER..LEAVE, at any depth, leaves
  the stack as it found it.
 */
module CpuStack {
  import opened Ast
  import opened Words
  import opened Memory
  import opened MemoryTheorems
  import opened Cpu

  // ---- doublewords in memory ----

  /** A byte access is the access of width 1. */
  lemma ByteStoreIsStore(m: Mem, addr: u64, v: byte)
    requires Separate(m)
    ensures StoreByte(m, {}, addr, v) == Store(m, addr, [v])
  {
    if Find(m, addr).Some? {
      assert m[Find(m, addr).value] in m;
    }
  }

  /** What a store does to every byte. */
  lemma WriteEffect(m: Mem, addr: u64, v: u64, n: nat, a: u64)
    requires Separate(m) && n in {1, 2, 4, 8} && WriteMem(m, addr, v, n).Done?
    ensures addr + n < TWO64
    ensures var m' := WriteMem(m, addr, v, n).value;
      Separate(m') && SameShape(m, m') && View(m', a) == if addr <= a < addr + n then Some(Le(v, n)[a - addr])
        else View(m, a)
  {
    hide Le; hide Find; hide Load; hide View; hide SameShape; hide Locate;
    var bytes := Le(v, n);
    if n == 1 {
      ByteStoreIsStore(m, addr, v % 256);
      LeOfByte(v);
    }
    assert Store(m, addr, bytes) == Done(WriteMem(m, addr, v, n).value);
    StoreWritesBytes(m, addr, bytes, a);
    StoreFits(m, addr, bytes);
  }

  lemma LeOfByte(v: nat)
    ensures Le(v, 1) == [v % 256]
  {
    LeStep(v, 1);
  }

  lemma StoreFits(m: Mem, addr: u64, bytes: seq<byte>)
    requires Separate(m) && 0 < |bytes| < MAX_SIZE && Store(m, addr, bytes).Done?
    ensures addr + |bytes| < TWO64
  {
    LocatedInside(m, addr, |bytes|);
    assert m[Locate(m, addr, |bytes|).value] in m;
  }

  lemma ReadAfterWrite(m: Mem, addr: u64, v: u64)
    requires WriteMem(m, addr, v, 8).Done?
    ensures ReadMem(WriteMem(m, addr, v, 8).value, addr, 8) == Done(v)
  {
    hide Le; hide FromLe; hide Load; hide Store;
    LoadOfStored(m, addr, Le(v, 8));
    Pow256Values();
    FromLeOfLe(v, 8);
  }

  /** Memories that agree on the bytes of a doubleword read it alike. */
  lemma SameViewsSameRead(m: Mem, m': Mem, addr: u64)
    requires Separate(m) && Separate(m') && SameShape(m, m') && ReadMem(m, addr, 8).Done?
    requires forall a: u64 | addr <= a < addr + 8 :: View(m, a) == View(m', a)
    ensures ReadMem(m', addr, 8) == ReadMem(m, addr, 8)
  {
    hide View; hide FromLe; hide SameShape;
    LocateSame(m, m', addr, 8);
    LoadReadsBytes(m, addr, 8);
    LoadReadsBytes(m', addr, 8);
    hide Locate;
    var b, b' := Load(m, addr, 8).value, Load(m', addr, 8).value;
    forall j: nat | j < 8 ensures b[j] == b'[j] {
      var a: u64 := addr + j;
      assert View(m, a) == Some(b[j]) && View(m', a) == Some(b'[j]);
    }
    assert b == b';
  }

  // ---- what a step may do to the stack ----

  /** The stack registers, the shape of the memory and the bytes from the stack pointer up are as before. */
  ghost predicate Quiet(s: State, t: State) {
    t.regs[SP] == s.regs[SP] && t.regs[FP] == s.regs[FP] && Separate(s.mem) && Separate(t.mem)
      && SameShape(s.mem, t.mem)
    && forall a: u64 | a >= s.regs[SP] :: View(t.mem, a) == View(s.mem, a)
  }

  lemma QuietTrans(s: State, t: State, u: State)
    requires Quiet(s, t) && Quiet(t, u)
    ensures Quiet(s, u)
  {
    hide View; hide Separate;
  }

  lemma SameShapeRefl(m: seq<Region>)
    ensures SameShape(m, m)
  {
  }

  // ---- single steps ----

  function PushOf(rs: Reg): Decoded { Decoded(Push, rs, 0, 0, 0, false) }

  function PopOf(rd: Reg): Decoded { Decoded(Pop, rd, 0, 0, 0, false) }

  function EnterOf(size: nat): Decoded { Decoded(Enter, 0, 0, 0, size, true) }

  function LeaveOf(): Decoded { Decoded(Leave, 0, 0, 0, 0, true) }

  /** PUSH r31 stores the stack pointer it has already moved. */
  function Pushed(s: State, rs: Reg): u64 { if rs == SP then Wrap(s.regs[SP] as int - 8) else ReadReg(s, rs) }

  /** A PUSH that does not fault: the value is at the new top, nothing from the old top up changed. */
  lemma PushStep(s: State, rs: Reg)
    requires Separate(s.mem) && ExecPush(s, PushOf(rs)).Ran?
    ensures var t := ExecPush(s, PushOf(rs)).s;
      s.regs[SP] >= 8 && t.regs == s.regs[SP := s.regs[SP] - 8] && Separate(t.mem) && SameShape(s.mem, t.mem)
      && ReadMem(t.mem, t.regs[SP], 8) == Done(Pushed(s, rs))
      && forall a: u64 | a >= s.regs[SP] :: View(t.mem, a) == View(s.mem, a)
  {
    hide WriteMem; hide ReadMem; hide View; hide Separate; hide SameShape;
    var sp, t := s.regs[SP], ExecPush(s, PushOf(rs)).s;
    var addr := Wrap(sp as int - 8);
    WriteEffect(s.mem, addr, Pushed(s, rs), 8, 0);
    ReadAfterWrite(s.mem, addr, Pushed(s, rs));
    WrapBack(sp, 8);
    forall a: u64 | a >= sp ensures View(t.mem, a) == View(s.mem, a) {
      WriteEffect(s.mem, addr, Pushed(s, rs), 8, a);
    }
  }

  /** Going down by `k` without room for `k` more wraps; with room it does not. */
  lemma WrapBack(sp: int, k: nat)
    requires 0 <= sp < TWO64 && k < 0x100 && Wrap(sp - k) + k < TWO64
    ensures sp >= k && Wrap(sp - k) == sp - k
  {
  }

  lemma PopStep(s: State, rd: Reg, v: u64)
    requires ReadMem(s.mem, s.regs[SP], 8) == Done(v) && rd != FP && rd != SP && s.regs[SP] + 8 < TWO64
    ensures ExecPop(s, PopOf(rd)).Ran?
    ensures var t := ExecPop(s, PopOf(rd)).s;
      t.mem == s.mem && t.regs[SP] == s.regs[SP] + 8 && t.regs[FP] == s.regs[FP] && (rd != 0 ==> t.regs[rd] == v)
  {
    hide ReadMem;
  }

  /** An ENTER that does not fault: link and frame pointer saved below the old top. */
  lemma EnterStep(s: State, size: nat)
    requires Separate(s.mem) && ExecEnter(s, EnterOf(size)).Ran? && size + 16 <= s.regs[SP]
    ensures var t := ExecEnter(s, EnterOf(size)).s;
      t.regs == s.regs[FP := s.regs[SP] - 16][SP := s.regs[SP] - 16 - size] && Separate(t.mem)
        && SameShape(s.mem, t.mem)
      && ReadMem(t.mem, s.regs[SP] - 16, 8) == Done(s.regs[LR]) && ReadMem(t.mem, s.regs[SP] - 8, 8) == Done(s.regs[FP])
      && forall a: u64 | a >= s.regs[SP] :: View(t.mem, a) == View(s.mem, a)
  {
    hide WriteMem; hide ReadMem; hide View; hide Separate; hide SameShape;
    var sp := s.regs[SP];
    var m1 := WriteMem(s.mem, sp - 16, s.regs[LR], 8).value;
    var m2 := WriteMem(m1, sp - 8, s.regs[FP], 8).value;
    WriteEffect(s.mem, sp - 16, s.regs[LR], 8, 0);
    WriteEffect(m1, sp - 8, s.regs[FP], 8, 0);
    ReadAfterWrite(s.mem, sp - 16, s.regs[LR]);
    ReadAfterWrite(m1, sp - 8, s.regs[FP]);
    SameShapeTrans(s.mem, m1, m2);
    forall a: u64 ensures View(m2, a) == if sp - 8 <= a < sp then Some(Le(s.regs[FP], 8)[a - (sp - 8)])
      else View(m1, a) {
      WriteEffect(m1, sp - 8, s.regs[FP], 8, a);
    }
    SameViewsSameRead(m1, m2, sp - 16);
    forall a: u64 | a >= sp ensures View(m2, a) == View(s.mem, a) {
      WriteEffect(s.mem, sp - 16, s.regs[LR], 8, a);
    }
  }

  lemma SameShapeTrans(a: seq<Region>, b: seq<Region>, c: seq<Region>)
    requires SameShape(a, b) && SameShape(b, c)
    ensures SameShape(a, c)
  {
  }

  lemma LeaveStep(s: State, link: u64, frame: u64)
    requires s.regs[FP] + 16 < TWO64
    requires ReadMem(s.mem, s.regs[FP], 8) == Done(link) && ReadMem(s.mem, s.regs[FP] + 8, 8) == Done(frame)
    ensures ExecLeave(s, LeaveOf()).Ran?
    ensures var t := ExecLeave(s, LeaveOf()).s;
      t.mem == s.mem && t.regs == s.regs[LR := link][FP := frame][SP := s.regs[FP] + 16]
  {
    hide ReadMem;
  }

  // ---- runs ----

  /** Instructions executed one after the other, up to the first exception. */
  function RunList(s: State, list: seq<Decoded>): Outcome
    requires forall di | di in list :: WellFormed(di)
    decreases |list|
  {
    if list == [] then Ran(s)
    else
      match Exec(s, list[0])
      case Threw(t) => Threw(t)
      case Ran(t) => RunList(t, list[1..])
  }

  lemma {:induction false} RunAppend(s: State, a: seq<Decoded>, b: seq<Decoded>)
    requires forall di | di in a + b :: WellFormed(di)
    ensures RunList(s, a + b) == (if RunList(s, a).Threw? then RunList(s, a) else RunList(RunList(s, a).s, b))
    decreases |a|
  {
    hide Exec; hide WellFormed;
    if a == [] {
      assert a + b == b;
    } else {
      assert (a + b)[0] == a[0] && (a + b)[1..] == a[1..] + b;
      assert a[0] in a + b;
      if Exec(s, a[0]).Ran? {
        RunAppend(Exec(s, a[0]).s, a[1..], b);
      }
    }
  }

  /** Well-bracketed code: plain instructions, PUSH..POP pairs and ENTER..LEAVE pairs around more code. */
  datatype Bracketed =
    | Nil
    | Plain(di: Decoded, rest: Bracketed)
    | Saved(rs: Reg, body: Bracketed, rd: Reg, rest: Bracketed)
    | Framed(size: nat, body: Bracketed, rest: Bracketed)

  predicate Encoded(c: Bracketed) {
    match c
    case Nil => true
    case Plain(di, rest) => WellFormed(di) && Encoded(rest)
    case Saved(_, body, _, rest) => Encoded(body) && Encoded(rest)
    case Framed(_, body, rest) => Encoded(body) && Encoded(rest)
  }

  function Flatten(c: Bracketed): (list: seq<Decoded>)
    requires Encoded(c)
    ensures forall di | di in list :: WellFormed(di)
  {
    match c
    case Nil => []
    case Plain(di, rest) => [di] + Flatten(rest)
    case Saved(rs, body, rd, rest) => [PushOf(rs)] + (Flatten(body) + ([PopOf(rd)] + Flatten(rest)))
    case Framed(size, body, rest) => [EnterOf(size)] + (Flatten(body) + ([LeaveOf()] + Flatten(rest)))
  }

  function After(s: State, c: Bracketed): Outcome
    requires Encoded(c)
  {
    RunList(s, Flatten(c))
  }

  /**
    What the run must respect: plain instructions neither fault nor touch the stack above the
    pointer, PUSH and ENTER find mapped memory, frames fit, POP does not target r30 or r31.
   */
  ghost predicate Disciplined(s: State, c: Bracketed)
    requires Encoded(c)
    decreases c
  {
    match c
    case Nil => true
    case Plain(di, rest) =>
      Exec(s, di).Ran? && Quiet(s, Exec(s, di).s) && Disciplined(Exec(s, di).s, rest)
    case Saved(rs, body, rd, rest) =>
      rd != FP && rd != SP && ExecPush(s, PushOf(rs)).Ran?
      && var t := ExecPush(s, PushOf(rs)).s;
        Disciplined(t, body) && Disciplined(ExecPop(After(t, body).s, PopOf(rd)).s, rest)
    case Framed(size, body, rest) =>
      size + 16 <= s.regs[SP] && ExecEnter(s, EnterOf(size)).Ran?
      && var t := ExecEnter(s, EnterOf(size)).s;
        Disciplined(t, body) && Disciplined(ExecLeave(After(t, body).s, LeaveOf()).s, rest)
  }

  lemma RunOne(s: State, di: Decoded, list: seq<Decoded>)
    requires WellFormed(di) && forall d | d in list :: WellFormed(d)
    ensures RunList(s, [di] + list) == if Exec(s, di).Threw? then Exec(s, di) else RunList(Exec(s, di).s, list)
  {
    hide Exec; hide WellFormed;
    assert ([di] + list)[1..] == list;
  }

  /** A bracket runs its body, then its closing instruction, then the rest. */
  lemma BracketRuns(s: State, body: seq<Decoded>, close: Decoded, rest: seq<Decoded>)
    requires (forall d | d in body :: WellFormed(d)) && WellFormed(close) && forall d | d in rest :: WellFormed(d)
    requires RunList(s, body).Ran? && Exec(RunList(s, body).s, close).Ran?
    ensures RunList(s, body + ([close] + rest)) == RunList(Exec(RunList(s, body).s, close).s, rest)
  {
    hide Exec; hide WellFormed; hide RunList;
    RunAppend(s, body, [close] + rest);
    RunOne(RunList(s, body).s, close, rest);
  }

  /** POP gives back the value of its PUSH and the old top, whatever the quiet code in between did. */
  lemma PopAfterPush(s: State, rs: Reg, u: State, rd: Reg)
    requires Separate(s.mem) && ExecPush(s, PushOf(rs)).Ran? && Quiet(ExecPush(s, PushOf(rs)).s, u) && rd != FP
      && rd != SP
    ensures ExecPop(u, PopOf(rd)).Ran? && Quiet(s, ExecPop(u, PopOf(rd)).s)
    ensures rd != 0 ==> ExecPop(u, PopOf(rd)).s.regs[rd] == Pushed(s, rs)
  {
    hide ExecPush; hide ExecPop; hide ReadMem; hide View; hide Separate; hide SameShape; hide Pushed;
    var t := ExecPush(s, PushOf(rs)).s;
    PushStep(s, rs);
    SameViewsSameRead(t.mem, u.mem, t.regs[SP]);
    PopStep(u, rd, Pushed(s, rs));
    SameShapeTrans(s.mem, t.mem, u.mem);
  }

  /** LEAVE restores link, frame pointer and stack pointer of its ENTER. */
  lemma LeaveAfterEnter(s: State, size: nat, u: State)
    requires Separate(s.mem) && size + 16 <= s.regs[SP] && ExecEnter(s, EnterOf(size)).Ran?
    requires Quiet(ExecEnter(s, EnterOf(size)).s, u)
    ensures ExecLeave(u, LeaveOf()).Ran? && Quiet(s, ExecLeave(u, LeaveOf()).s)
    ensures ExecLeave(u, LeaveOf()).s.regs[LR] == s.regs[LR]
  {
    hide ExecEnter; hide ExecLeave; hide ReadMem; hide View; hide Separate; hide SameShape;
    var t := ExecEnter(s, EnterOf(size)).s;
    EnterStep(s, size);
    SameViewsSameRead(t.mem, u.mem, s.regs[SP] - 16);
    SameViewsSameRead(t.mem, u.mem, s.regs[SP] - 8);
    LeaveStep(u, s.regs[LR], s.regs[FP]);
    SameShapeTrans(s.mem, t.mem, u.mem);
  }

  /**
    Any disciplined run ends with r30 and r31 as at entry and every byte from the entry stack
    pointer up unchanged; no POP or LEAVE in it can fault.
   */
  lemma {:induction false} StackDiscipline(s: State, c: Bracketed)
    requires Encoded(c) && Separate(s.mem) && Disciplined(s, c)
    ensures After(s, c).Ran? && Quiet(s, After(s, c).s)
    decreases c
  {
    hide Exec; hide ExecPush; hide ExecPop; hide ExecEnter; hide ExecLeave; hide RunList; hide Quiet; hide WellFormed;
    hide Separate;
    match c
    case Nil => RunNothing(s);
    case Plain(di, rest) =>
      var t := Exec(s, di).s;
      QuietSeparate(s, t);
      StackDiscipline(t, rest);
      RunOne(s, di, Flatten(rest));
      QuietTrans(s, t, After(t, rest).s);
    case Saved(rs, body, rd, rest) =>
      SavedRuns(s, rs, body, rd, rest);
    case Framed(size, body, rest) =>
      FramedRuns(s, size, body, rest);
  }

  lemma RunNothing(s: State)
    requires Separate(s.mem)
    ensures RunList(s, []) == Ran(s) && Quiet(s, s)
  {
    SameShapeRefl(s.mem);
  }

  lemma QuietSeparate(s: State, t: State)
    requires Quiet(s, t)
    ensures Separate(s.mem) && Separate(t.mem)
  {
  }

  lemma PushSeparate(s: State, rs: Reg)
    requires Separate(s.mem) && ExecPush(s, PushOf(rs)).Ran?
    ensures Separate(ExecPush(s, PushOf(rs)).s.mem)
  {
    hide ExecPush; hide Separate;
    PushStep(s, rs);
  }

  lemma {:induction false} SavedRuns(s: State, rs: Reg, body: Bracketed, rd: Reg, rest: Bracketed)
    requires Encoded(body) && Encoded(rest) && Separate(s.mem) && Disciplined(s, Saved(rs, body, rd, rest))
    ensures After(s, Saved(rs, body, rd, rest)).Ran? && Quiet(s, After(s, Saved(rs, body, rd, rest)).s)
    decreases Saved(rs, body, rd, rest), 0
  {
    hide Exec; hide ExecPush; hide ExecPop; hide RunList; hide Quiet; hide Separate; hide Pushed;
    var t := ExecPush(s, PushOf(rs)).s;
    PushSeparate(s, rs);
    StackDiscipline(t, body);
    var u := After(t, body).s;
    PopAfterPush(s, rs, u, rd);
    var w := ExecPop(u, PopOf(rd)).s;
    QuietSeparate(s, w);
    StackDiscipline(w, rest);
    AccessIs(s, PushOf(rs));
    AccessIs(u, PopOf(rd));
    RunOne(s, PushOf(rs), Flatten(body) + ([PopOf(rd)] + Flatten(rest)));
    BracketRuns(t, Flatten(body), PopOf(rd), Flatten(rest));
    QuietTrans(s, w, After(w, rest).s);
  }

  lemma EnterSeparate(s: State, size: nat)
    requires Separate(s.mem) && size + 16 <= s.regs[SP] && ExecEnter(s, EnterOf(size)).Ran?
    ensures Separate(ExecEnter(s, EnterOf(size)).s.mem)
  {
    hide ExecEnter; hide Separate;
    EnterStep(s, size);
  }

  lemma {:induction false} FramedRuns(s: State, size: nat, body: Bracketed, rest: Bracketed)
    requires Encoded(body) && Encoded(rest) && Separate(s.mem) && Disciplined(s, Framed(size, body, rest))
    ensures After(s, Framed(size, body, rest)).Ran? && Quiet(s, After(s, Framed(size, body, rest)).s)
    decreases Framed(size, body, rest), 0
  {
    hide Exec; hide ExecEnter; hide ExecLeave; hide RunList; hide Quiet; hide Separate;
    var t := ExecEnter(s, EnterOf(size)).s;
    EnterSeparate(s, size);
    StackDiscipline(t, body);
    var u := After(t, body).s;
    LeaveAfterEnter(s, size, u);
    var w := ExecLeave(u, LeaveOf()).s;
    QuietSeparate(s, w);
    StackDiscipline(w, rest);
    AccessIs(s, EnterOf(size));
    AccessIs(u, LeaveOf());
    RunOne(s, EnterOf(size), Flatten(body) + ([LeaveOf()] + Flatten(rest)));
    BracketRuns(t, Flatten(body), LeaveOf(), Flatten(rest));
    QuietTrans(s, w, After(w, rest).s);
  }

  /** Across ENTER..LEAVE the link register is restored too, whatever the body did to it. */
  lemma FrameRestoresLink(s: State, size: nat, body: Bracketed)
    requires Encoded(body) && Separate(s.mem) && Disciplined(s, Framed(size, body, Nil))
    ensures After(s, Framed(size, body, Nil)).Ran?
    ensures var t := After(s, Framed(size, body, Nil)).s;
      t.regs[LR] == s.regs[LR] && t.regs[FP] == s.regs[FP] && t.regs[SP] == s.regs[SP]
  {
    hide Exec; hide ExecEnter; hide ExecLeave; hide RunList; hide Separate; hide SameShape; hide View;
    StackDiscipline(s, Framed(size, body, Nil));
    var t := ExecEnter(s, EnterOf(size)).s;
    EnterSeparate(s, size);
    StackDiscipline(t, body);
    var u := After(t, body).s;
    LeaveAfterEnter(s, size, u);
    AccessIs(s, EnterOf(size));
    AccessIs(u, LeaveOf());
    assert Flatten(Nil) == [];
    RunOne(s, EnterOf(size), Flatten(body) + ([LeaveOf()] + Flatten(Nil)));
    BracketRuns(t, Flatten(body), LeaveOf(), Flatten(Nil));
    RunEmpty(ExecLeave(u, LeaveOf()).s);
  }

  lemma RunEmpty(s: State)
    ensures RunList(s, []) == Ran(s)
  {
  }

  /** A PUSH..POP pair around disciplined code moves the pushed value into the popped register. */
  lemma PopGivesPushedValue(s: State, rs: Reg, body: Bracketed, rd: Reg)
    requires Encoded(body) && Separate(s.mem) && Disciplined(s, Saved(rs, body, rd, Nil)) && rd != 0
    ensures After(s, Saved(rs, body, rd, Nil)).Ran? && After(s, Saved(rs, body, rd, Nil)).s.regs[rd] == Pushed(s, rs)
  {
    hide Exec; hide ExecPush; hide ExecPop; hide RunList; hide Separate; hide SameShape; hide View; hide Pushed;
    StackDiscipline(s, Saved(rs, body, rd, Nil));
    var t := ExecPush(s, PushOf(rs)).s;
    PushSeparate(s, rs);
    StackDiscipline(t, body);
    var u := After(t, body).s;
    PopAfterPush(s, rs, u, rd);
    AccessIs(s, PushOf(rs));
    AccessIs(u, PopOf(rd));
    assert Flatten(Nil) == [];
    RunOne(s, PushOf(rs), Flatten(body) + ([PopOf(rd)] + Flatten(Nil)));
    BracketRuns(t, Flatten(body), PopOf(rd), Flatten(Nil));
    RunEmpty(ExecPop(u, PopOf(rd)).s);
  }

  // ---- which plain instructions are quiet ----

  /** Register arithmetic, loads and hints that do not write r30 or r31. */
  predicate KeepsStack(di: Decoded) {
    di.rd != FP && di.rd != SP
    && (di.kind.Hint? || di.kind.Alu? || di.kind.LoadInst? || di.kind.LoadNonZero? || di.kind.Frame?
      || di.kind.LoadReserved?
        || di.kind.LoopSet? || di.kind.VSetVl?)
  }

  lemma PlainIsQuiet(s: State, di: Decoded)
    requires WellFormed(di) && KeepsStack(di) && Separate(s.mem) && Exec(s, di).Ran?
    ensures Quiet(s, Exec(s, di).s)
  {
    hide ExecStore; hide ExecLoadPair; hide ExecStorePair; hide ExecPush; hide ExecPop; hide ExecEnter; hide ExecLeave;
    hide ExecStoreConditional; hide VLoadFrom; hide VStoreFrom; hide Finish; hide ExecCsrSwap; hide TrapReturn;
    hide AluResult; hide ReadMem; hide View; hide Separate; hide SignExtend; hide SameShape;
    SameShapeRefl(s.mem);
  }

  /** A store that ends at or below the stack pointer is quiet. */
  lemma StoreBelowIsQuiet(s: State, di: Decoded)
    requires WellFormed(di) && di.kind.StoreInst? && Separate(s.mem) && Exec(s, di).Ran?
    requires Wrap(ReadReg(s, di.rs1) + di.imm) + di.kind.size <= s.regs[SP]
    ensures Quiet(s, Exec(s, di).s)
  {
    hide WriteMem; hide View; hide Separate; hide SameShape; hide Wrap;
    var addr, n, v := Wrap(ReadReg(s, di.rs1) + di.imm), di.kind.size, ReadReg(s, di.rd);
    WriteEffect(s.mem, addr, v, n, 0);
    forall a: u64 | a >= s.regs[SP] ensures View(Exec(s, di).s.mem, a) == View(s.mem, a) {
      WriteEffect(s.mem, addr, v, n, a);
    }
  }

  /** POP r31 loses the stack: r31 becomes the popped value plus 8. */
  lemma PopIntoStackPointer(s: State, rs: Reg)
    requires Separate(s.mem) && ExecPush(s, PushOf(rs)).Ran?
    ensures var o := ExecPop(ExecPush(s, PushOf(rs)).s, PopOf(SP)); o.Ran? && o.s.regs[SP] == Wrap(Pushed(s, rs) + 8)
  {
    hide ExecPush; hide ReadMem; hide View; hide Separate; hide SameShape; hide Pushed; hide Wrap;
    PushStep(s, rs);
  }
}
