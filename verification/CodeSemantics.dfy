/**
  Meanings for both sides of the code generator: a machine that runs its labelled lines, and
  a big-step semantics of the structured statements.

  Both are parametric in the machine word `W`, in the store `S` that variables live in, and in
  what arithmetic, comparison, memory, the functions called and each inline-assembly text do and
  what value any other operator has, so what is proved holds for every choice of them.  Inline
  assembly changes the store in a way that does not depend on the registers, and may leave
  anything in the registers; a function may leave anything in both, from both.
 */
module CodeSemantics {
  import opened Ast
  import opened CodeGen

  datatype Arch<!W, !S> = Arch(
    constant: nat -> W,
    load: (S, string) -> W,
    alu: (AluOp, W, W) -> W,
    unary: (TokenKind, bool, W) -> W,
    other: (TokenKind, W, W) -> W,
    zero: W,
    equal: (W, W) -> bool,
    less: (W, W) -> bool,
    asm: (string, S) -> S,
    scramble: (string, int, seq<W>) -> W,
    read: (S, W) -> W,
    address: string -> W,
    labelled: nat -> W,
    called: (string, seq<W>, S) -> S,
    returned: (string, int, seq<W>, S) -> W)

  // ---- the machine ----

  datatype Machine<W, S> = Machine(regs: seq<W>, store: S)

  datatype Config<W, S> = Running(pc: nat, m: Machine<W, S>) | Returned(m: Machine<W, S>) | Wrong

  function Get<W, S>(arch: Arch<W, S>, regs: seq<W>, r: Reg): W {
    if r < |regs| then regs[r] else arch.zero
  }

  function Set<W>(regs: seq<W>, r: Reg, v: W): (regs': seq<W>)
    ensures |regs'| == |regs|
  {
    if r < |regs| then regs[r := v] else regs
  }

  function Holds<W, S>(arch: Arch<W, S>, op: BranchOp, a: W, b: W): bool {
    match op
    case BEQ => arch.equal(a, b)
    case BNE => !arch.equal(a, b)
    case BLT => arch.less(a, b)
    case BGE => !arch.less(a, b)
    case BGT => arch.less(b, a)
    case BLE => !arch.less(b, a)
  }

  /** Where label `l` is first defined; past the end if it is not. */
  function Find(code: seq<Line>, l: nat): (k: nat)
    ensures k <= |code| && (k < |code| ==> code[k] == LabelDef(l))
  {
    if code == [] then 0 else if code[0] == LabelDef(l) then 0 else 1 + Find(code[1..], l)
  }

  function GoTo<W, S>(code: seq<Line>, l: nat, m: Machine<W, S>): Config<W, S> {
    if Find(code, l) < |code| then Running(Find(code, l), m) else Wrong
  }

  function SetTo<W, S>(pc: nat, m: Machine<W, S>, r: Reg, v: W): Config<W, S> {
    Running(pc + 1, m.(regs := Set(m.regs, r, v)))
  }

  function AfterCall<W, S>(arch: Arch<W, S>, f: string, m: Machine<W, S>): Machine<W, S> {
    Machine(seq(|m.regs|, i => arch.returned(f, i, m.regs, m.store)), arch.called(f, m.regs, m.store))
  }

  function Step<W, S>(arch: Arch<W, S>, code: seq<Line>, cfg: Config<W, S>): Config<W, S> {
    if !cfg.Running? || cfg.pc >= |code| then cfg
    else
      var pc, m := cfg.pc, cfg.m;
      match code[pc]
      case LabelDef(_) => Running(pc + 1, m)
      case Jmp(l) => GoTo(code, l, m)
      case Branch(op, l) =>
        if Holds(arch, op, Get(arch, m.regs, R1), Get(arch, m.regs, R2)) then GoTo(code, l, m) else Running(pc + 1, m)
      case BranchZero(op, l) =>
        if Holds(arch, op, Get(arch, m.regs, R1), arch.zero) then GoTo(code, l, m) else Running(pc + 1, m)
      case MovConst(rd, v) => SetTo(pc, m, rd, arch.constant(v))
      case MovVar(rd, x) => SetTo(pc, m, rd, arch.load(m.store, x))
      case MovReg(rd, rs) => SetTo(pc, m, rd, Get(arch, m.regs, rs))
      case Alu(op) => SetTo(pc, m, R1, arch.alu(op, Get(arch, m.regs, R1), Get(arch, m.regs, R2)))
      case MovAddress(rd, x) => SetTo(pc, m, rd, arch.address(x))
      case MovLabel(rd, l) => SetTo(pc, m, rd, arch.labelled(l))
      case LoadD(rd, rs) => SetTo(pc, m, rd, arch.read(m.store, Get(arch, m.regs, rs)))
      case ScaleIndex => SetTo(pc, m, R2, arch.alu(SLL, Get(arch, m.regs, R2), arch.constant(3)))
      case CallFunction(f) => Running(pc + 1, AfterCall(arch, f, m))
      case Ret => Returned(m)
      case AsmLine(code') =>
        Running(pc + 1, Machine(seq(|m.regs|, i => arch.scramble(code', i, m.regs)), arch.asm(code', m.store)))
      // directives, and the frame set-up whose registers are not among those modelled
      case SectionText | Global(_) | FunctionLabel(_) | EnterFrame => Running(pc + 1, m)
      // the bytes of a string are no instructions
      case StringDef(_, _) => Wrong
  }

  function Run<W, S>(arch: Arch<W, S>, code: seq<Line>, cfg: Config<W, S>, n: nat): Config<W, S>
    decreases n
  {
    if n == 0 then cfg else Run(arch, code, Step(arch, code, cfg), n - 1)
  }

  // ---- expressions ----

  predicate IsLeaf(e: Expr) { e.Constant? || e.Variable? }

  /** Any operators, unary or binary, over constants and variables. */
  predicate Plain(e: Expr)
    decreases e
  {
    IsLeaf(e) || (e.Unary? && Plain(e.operand)) || (e.Binary? && Plain(e.left) && Plain(e.right))
  }

  /** Arithmetic over constants and variables. */
  predicate Arithmetic(e: Expr): (r: bool)
    ensures r ==> Plain(e)
    decreases e
  {
    IsLeaf(e) || (e.Binary? && AluOf(e.op).Some? && Arithmetic(e.left) && Arithmetic(e.right))
  }

  function Leaf<W, S>(arch: Arch<W, S>, e: Expr, st: S): W
    requires IsLeaf(e)
  {
    if e.Constant? then arch.constant(e.value) else arch.load(st, e.name)
  }

  /** The value an expression has; unary, comparison and logical operators may give any value. */
  function Eval<W, S>(arch: Arch<W, S>, e: Expr, st: S): W
    requires Plain(e)
    decreases e
  {
    if IsLeaf(e) then Leaf(arch, e, st)
    else if e.Unary? then arch.unary(e.uop, e.isPrefix, Eval(arch, e.operand, st))
    else if AluOf(e.op).Some? then arch.alu(AluOf(e.op).value, Eval(arch, e.left, st), Eval(arch, e.right, st))
    else arch.other(e.op, Eval(arch, e.left, st), Eval(arch, e.right, st))
  }

  // ---- statements ----

  predicate IsComparison(op: TokenKind) { BranchOf(op, false).Some? }

  predicate IsComparisonOf(c: Expr) { Plain(c) && c.Binary? && IsComparison(c.op) }

  function Compare<W, S>(arch: Arch<W, S>, op: TokenKind, a: W, b: W): bool
    requires IsComparison(op)
  {
    if op == EQEQ then arch.equal(a, b)
    else if op == NEQ then !arch.equal(a, b)
    else if op == LT then arch.less(a, b)
    else if op == LE then !arch.less(b, a)
    else if op == GT then arch.less(b, a)
    else !arch.less(a, b)
  }

  predicate IsNegation(c: Expr) { c.Unary? && c.uop == EXCLAM && c.isPrefix }

  /** The truth of a condition, as the language defines it. */
  predicate Truth<W, S>(arch: Arch<W, S>, c: Expr, st: S)
    requires Plain(c)
    decreases c
  {
    if c.Binary? && IsComparison(c.op) then Compare(arch, c.op, Eval(arch, c.left, st), Eval(arch, c.right, st))
    else if c.Binary? && c.op == ANDAND then Truth(arch, c.left, st) && Truth(arch, c.right, st)
    else if c.Binary? && c.op == OROR then Truth(arch, c.left, st) || Truth(arch, c.right, st)
    else if IsNegation(c) then !Truth(arch, c.operand, st)
    else !arch.equal(Eval(arch, c, st), arch.zero)
  }

  datatype Outcome<W, S> = Next(st: S) | Done(st: S, value: Option<W>) | OutOfFuel

  /** Every right operand is a leaf, or repeats the left operand. */
  predicate RightLeaf(e: Expr)
    decreases e
  {
    e.Binary? ==> RightLeaf(e.left) && (IsLeaf(e.right) || e.right == e.left)
  }

  /** A leaf, or a comparison whose right side is a leaf or repeats the left one. */
  predicate SupportedCondition(c: Expr) {
    Plain(c) && (IsLeaf(c) || (IsComparisonOf(c) && Arithmetic(c.left) && Arithmetic(c.right) && RightLeaf(c)))
  }

  /** The statements whose meaning is defined below and kept by the generated code. */
  predicate Supported(s: Stmt)
    decreases s
  {
    match s
    case Block(ss) => forall x | x in ss :: Supported(x)
    case If(c, t, e) => SupportedCondition(c) && Supported(t) && (e.Some? ==> Supported(e.value))
    case While(c, b) => SupportedCondition(c) && Supported(b)
    case For(i, c, n, b) =>
      (i.Some? ==> Arithmetic(i.value)) && (c.Some? ==> SupportedCondition(c.value))
      && (n.Some? ==> Arithmetic(n.value)) && Supported(b)
    case DoWhile(b, c) => SupportedCondition(c) && Supported(b)
    case Return(e) => e.Some? ==> Arithmetic(e.value) && RightLeaf(e.value)
    case Empty => true
    case AsmStmt(_) => true
    case ExprStmt(e) => e.Asm? || Arithmetic(e)
    case _ => false
  }

  /** Big-step execution; each turn of a loop uses one unit of fuel. */
  function Exec<W, S>(arch: Arch<W, S>, s: Stmt, st: S, fuel: nat): Outcome<W, S>
    requires Supported(s)
    decreases fuel, s, 0
  {
    match s
    case Block(ss) => ExecAll(arch, ss, st, fuel)
    case If(c, t, e) =>
      if Truth(arch, c, st) then Exec(arch, t, st, fuel)
      else if e.Some? then Exec(arch, e.value, st, fuel) else Next(st)
    case While(c, b) => ExecLoop(arch, Some(c), b, st, fuel)
    case For(_, c, _, b) => ExecLoop(arch, c, b, st, fuel)
    case DoWhile(b, c) => ExecDo(arch, c, b, st, fuel)
    case Return(e) => Done(st, if e.Some? then Some(Eval(arch, e.value, st)) else None)
    case AsmStmt(code) => Next(arch.asm(code, st))
    case ExprStmt(e) => Next(if e.Asm? then arch.asm(e.code, st) else st)
    case Empty => Next(st)
  }

  function ExecAll<W, S>(arch: Arch<W, S>, ss: seq<Stmt>, st: S, fuel: nat): Outcome<W, S>
    requires forall x | x in ss :: Supported(x)
    decreases fuel, ss, 0
  {
    if ss == [] then Next(st)
    else
      match Exec(arch, ss[0], st, fuel)
      case Next(st') => ExecAll(arch, ss[1..], st', fuel)
      case r => r
  }

  function ExecLoop<W, S>(arch: Arch<W, S>, c: Option<Expr>, b: Stmt, st: S, fuel: nat): Outcome<W, S>
    requires Supported(b) && (c.Some? ==> SupportedCondition(c.value))
    decreases fuel, b, 1
  {
    if c.Some? && !Truth(arch, c.value, st) then Next(st)
    else
      match Exec(arch, b, st, fuel)
      case Next(st') => if fuel == 0 then OutOfFuel else ExecLoop(arch, c, b, st', fuel - 1)
      case r => r
  }

  function ExecDo<W, S>(arch: Arch<W, S>, c: Expr, b: Stmt, st: S, fuel: nat): Outcome<W, S>
    requires Supported(b) && SupportedCondition(c)
    decreases fuel, b, 1
  {
    match Exec(arch, b, st, fuel)
    case Next(st') =>
      if !Truth(arch, c, st') then Next(st')
      else if fuel == 0 then OutOfFuel else ExecDo(arch, c, b, st', fuel - 1)
    case r => r
  }
}
