/**
  The generated code does what the structured program does.
 */
module CodeTheorems {
  import opened Ast
  import opened CodeGen
  import opened CodeSemantics

  // ---- labels ----

  function DefinesLabel(line: Line, l: nat): nat {
    if line == LabelDef(l) || (line.StringDef? && line.id == l) then 1 else 0
  }

  /** How often `l` is defined. */
  function Defs(code: seq<Line>, l: nat): nat {
    if code == [] then 0 else DefinesLabel(code[0], l) + Defs(code[1..], l)
  }

  lemma DefsOfTwo(a: Line, b: Line, l: nat)
    ensures Defs([a, b], l) == DefinesLabel(a, l) + DefinesLabel(b, l)
  {
    assert [a, b][1..] == [b] && [b][1..] == [];
    assert Defs([a, b], l) == DefinesLabel(a, l) + Defs([a, b][1..], l);
    assert Defs([b], l) == DefinesLabel(b, l) + Defs([b][1..], l);
  }

  lemma DefsOfParts(a: seq<Line>, b: seq<Line>, c: seq<Line>, d: seq<Line>, e: seq<Line>, l: nat)
    ensures Defs(a + (b + (c + (d + e))), l) == Defs(a, l) + Defs(b, l) + Defs(c, l) + Defs(d, l) + Defs(e, l)
  {
    DefsAppend(a, b + (c + (d + e)), l);
    DefsAppend(b, c + (d + e), l);
    DefsAppend(c, d + e, l);
    DefsAppend(d, e, l);
  }

  lemma {:induction false} DefsAppend(a: seq<Line>, b: seq<Line>, l: nat)
    ensures Defs(a + b, l) == Defs(a, l) + Defs(b, l)
  {
    if a == [] {
      assert a + b == b;
    } else {
      assert (a + b)[1..] == a[1..] + b;
      DefsAppend(a[1..], b, l);
    }
  }

  /** Labels from `lo` up to `hi` are defined at most once, and no others. */
  predicate Owns(code: seq<Line>, l: nat, lo: nat, hi: nat) {
    Defs(code, l) <= if lo <= l < hi then 1 else 0
  }

  lemma DefsOfOne(a: Line, l: nat)
    ensures Defs([a], l) == DefinesLabel(a, l) && Defs([], l) == 0
  {
    assert [a][1..] == [];
  }

  lemma MoveResultLabels(target: Reg, l: nat)
    ensures Defs(MoveResult(target), l) == 0
  {
    DefsOfOne(MovReg(target, R1), l);
  }

  lemma AluLabels(op: TokenKind, l: nat)
    ensures Defs(AluLines(op), l) == 0
  {
    if AluOf(op).Some? { DefsOfOne(Alu(AluOf(op).value), l); }
  }

  lemma {:induction false} BinaryLabels(op: TokenKind, a: Expr, b: Expr, target: Reg, c: nat, l: nat)
    ensures var r := GenBinary(op, a, b, target, c); c <= r.next && Owns(r.lines, l, c, r.next)
    decreases Binary(op, a, b), 0
  {
    hide Defs; hide GenExpression; hide AluLines; hide MoveResult;
    var left := GenExpression(a, R1, c);
    var right := GenExpression(b, R2, left.next);
    ExpressionLabels(a, R1, c, l);
    ExpressionLabels(b, R2, left.next, l);
    var tail := AluLines(op) + MoveResult(target);
    AluLabels(op, l);
    MoveResultLabels(target, l);
    DefsAppend(AluLines(op), MoveResult(target), l);
    DefsAppend(left.lines, right.lines + tail, l);
    DefsAppend(right.lines, tail, l);
  }

  lemma {:induction false} ExpressionLabels(e: Expr, target: Reg, c: nat, l: nat)
    ensures var r := GenExpression(e, target, c); c <= r.next && Owns(r.lines, l, c, r.next)
    decreases e, 1
  {
    hide Defs; hide GenBinary; hide GenIndex; hide MoveResult;
    match e
    case Binary(op, a, b) => BinaryLabels(op, a, b, target, c, l);
    case Unary(_, x, _) => ExpressionLabels(x, target, c, l);
    case Assign(_, v) =>
      ExpressionLabels(v, R1, c, l);
      DefsOfOne(MovReg(target, R1), l);
      DefsAppend(GenExpression(v, R1, c).lines, [MovReg(target, R1)], l);
    case Call(f, args) =>
      ArgumentLabels(args, R1, c, l);
      MoveResultLabels(target, l);
      DefsOfOne(CallFunction(f), l);
      DefsAppend(GenArguments(args, R1, c).lines, [CallFunction(f)] + MoveResult(target), l);
      DefsAppend([CallFunction(f)], MoveResult(target), l);
    case Deref(x) =>
      ExpressionLabels(x, target, c, l);
      DefsOfOne(LoadD(target, target), l);
      DefsAppend(GenExpression(x, target, c).lines, [LoadD(target, target)], l);
    case Index(a, i) => IndexLabels(a, i, target, c, l);
    case StringLit(text) => DefsOfTwo(StringDef(c, text), MovLabel(target, c), l);
    case Constant(v) => DefsOfOne(MovConst(target, v), l);
    case Variable(x) => DefsOfOne(MovVar(target, x), l);
    case AddressOf(x) => DefsOfOne(if x.Variable? then MovAddress(target, x.name) else Ret, l);
    case _ => DefsOfOne(Ret, l);
  }

  lemma LoadElementLabels(target: Reg, l: nat)
    ensures Defs(LoadElement(target), l) == 0
  {
    DefsOfOne(ScaleIndex, l);
    DefsAppend([ScaleIndex], [Alu(ADD), LoadD(target, R1)], l);
    DefsOfTwo(Alu(ADD), LoadD(target, R1), l);
  }

  lemma {:induction false} IndexLabels(a: Expr, i: Expr, target: Reg, c: nat, l: nat)
    ensures var r := GenIndex(a, i, target, c); c <= r.next && Owns(r.lines, l, c, r.next)
    decreases Index(a, i), 0
  {
    hide Defs; hide GenExpression; hide LoadElement;
    var base := GenExpression(a, R1, c);
    var index := GenExpression(i, R2, base.next);
    ExpressionLabels(a, R1, c, l);
    ExpressionLabels(i, R2, base.next, l);
    var tail := LoadElement(target);
    LoadElementLabels(target, l);
    DefsAppend(base.lines, index.lines + tail, l);
    DefsAppend(index.lines, tail, l);
  }

  lemma {:induction false} ArgumentLabels(args: seq<Expr>, r: Reg, c: nat, l: nat)
    ensures var a := GenArguments(args, r, c); c <= a.next && Owns(a.lines, l, c, a.next)
    decreases args, 0
  {
    if args != [] {
      var first := GenExpression(args[0], r, c);
      ExpressionLabels(args[0], r, c, l);
      ArgumentLabels(args[1..], r + 1, first.next, l);
      DefsAppend(first.lines, GenArguments(args[1..], r + 1, first.next).lines, l);
    }
  }

  lemma ConditionLabels(e: Expr, exit: nat, invert: bool, c: nat, l: nat)
    ensures var r := GenCondition(e, exit, invert, c); c <= r.next && Owns(r.lines, l, c, r.next)
  {
    if e.Binary? {
      var left := GenExpression(e.left, R1, c);
      var right := GenExpression(e.right, R2, left.next);
      var b := BranchOf(e.op, invert);
      var tail := if b.Some? then [Branch(b.value, exit)] else [];
      ExpressionLabels(e.left, R1, c, l);
      ExpressionLabels(e.right, R2, left.next, l);
      DefsAppend(left.lines, right.lines + tail, l);
      DefsAppend(right.lines, tail, l);
    } else {
      ExpressionLabels(e, R1, c, l);
      DefsAppend(GenExpression(e, R1, c).lines, [BranchZero(if invert then BNE else BEQ, exit)], l);
    }
  }

  lemma OptionLabels(e: Option<Expr>, c: nat, l: nat)
    ensures var r := GenOption(e, c); c <= r.next && Owns(r.lines, l, c, r.next)
  {
    if e.Some? { ExpressionLabels(e.value, R1, c, l); }
  }

  /** The labels a statement defines are fresh ones, each defined at most once. */
  lemma {:induction false} StatementLabels(s: Stmt, c: nat, l: nat)
    ensures var r := GenStatement(s, c); c <= r.next && Owns(r.lines, l, c, r.next)
    decreases s, 3
  {
    hide Defs; hide GenIf; hide GenLoop; hide GenDo; hide GenStatements; hide GenExpression; hide Prologue;
    hide GenOption;
    match s
    case Block(ss) => StatementsLabels(ss, c, l);
    case If(_, _, _) => IfLabels(s, c, l);
    case While(cond, b) => LoopLabels(Some(cond), b, None, c, c + 2, l);
    case For(i, cond, n, b) =>
      var init := GenOption(i, c + 2);
      OptionLabels(i, c + 2, l);
      LoopLabels(cond, b, n, c, init.next, l);
      DefsAppend(init.lines, GenLoop(cond, b, n, c, init.next).lines, l);
    case DoWhile(b, cond) => DoWhileLabels(b, cond, c, l);
    case Return(e) =>
      OptionLabels(e, c, l);
      DefsOfOne(Ret, l);
      DefsAppend(GenOption(e, c).lines, [Ret], l);
    case VariableDecl(name, _, init, _, _) =>
      DefsOfOne(MovVar(R1, name), l);
      if init.Some? {
        ExpressionLabels(init.value, R1, c, l);
        DefsAppend(GenExpression(init.value, R1, c).lines, [MovVar(R1, name)], l);
      }
    case FunctionDef(name, _, _, body) =>
      DefsOfOne(Ret, l);
      if body.Some? {
        StatementLabels(body.value, c, l);
        var code := GenStatement(body.value, c);
        DefsAppend(Prologue(name), code.lines + [Ret], l);
        DefsAppend(code.lines, [Ret], l);
        PrologueLabels(name, l);
      }
    case AsmStmt(text) => DefsOfOne(AsmLine(text), l);
    case ExprStmt(e) => DefsOfOne(AsmLine(if e.Asm? then e.code else ""), l);
    case _ => DefsOfOne(Ret, l);
  }

  lemma PrologueLabels(name: string, l: nat)
    ensures Defs(Prologue(name), l) == 0
  {
    DefsOfTwo(SectionText, Global(name), l);
    DefsOfTwo(FunctionLabel(name), EnterFrame, l);
    DefsAppend([SectionText, Global(name)], [FunctionLabel(name), EnterFrame], l);
    assert [SectionText, Global(name)] + [FunctionLabel(name), EnterFrame] == Prologue(name);
  }

  lemma {:induction false} IfLabels(s: Stmt, c: nat, l: nat)
    requires s.If?
    ensures var r := GenIf(s, c); c <= r.next && Owns(r.lines, l, c, r.next)
    decreases s, 2
  {
    hide Defs; hide GenStatement; hide GenCondition;
    DefsOfOne(LabelDef(c), l);
    DefsOfOne(LabelDef(c + 1), l);
    var test := GenCondition(s.cond, c, false, c + 2);
    var yes := GenStatement(s.thenBody, test.next);
    ConditionLabels(s.cond, c, false, c + 2, l);
    StatementLabels(s.thenBody, test.next, l);
    if s.elseBody.Some? {
      var no := GenStatement(s.elseBody.value, yes.next);
      StatementLabels(s.elseBody.value, yes.next, l);
      var tail := no.lines + [LabelDef(c + 1)];
      DefsAppend(test.lines, yes.lines + ([Jmp(c + 1), LabelDef(c)] + tail), l);
      DefsAppend(yes.lines, [Jmp(c + 1), LabelDef(c)] + tail, l);
      DefsAppend([Jmp(c + 1), LabelDef(c)], tail, l);
      DefsOfTwo(Jmp(c + 1), LabelDef(c), l);
      DefsAppend(no.lines, [LabelDef(c + 1)], l);
    } else {
      DefsAppend(test.lines, yes.lines + [LabelDef(c)], l);
      DefsAppend(yes.lines, [LabelDef(c)], l);
    }
  }

  lemma {:induction false} LoopLabels(cond: Option<Expr>, b: Stmt, inc: Option<Expr>, start: nat, c: nat, l: nat)
    requires start + 2 <= c
    ensures c <= GenLoop(cond, b, inc, start, c).next
    ensures var r := GenLoop(cond, b, inc, start, c);
      Defs(r.lines, l) <= (if l == start || l == start + 1 || c <= l < r.next then 1 else 0)
    decreases b, 4
  {
    hide Defs; hide GenStatement; hide GenCondition; hide GenOption;
    DefsOfOne(LabelDef(start), l);
    var test := if cond.Some? then GenCondition(cond.value, start + 1, false, c) else Emitted([], c);
    var body := GenStatement(b, test.next);
    var step := GenOption(inc, body.next);
    if cond.Some? { ConditionLabels(cond.value, start + 1, false, c, l); }
    StatementLabels(b, test.next, l);
    OptionLabels(inc, body.next, l);
    var end := [Jmp(start), LabelDef(start + 1)];
    DefsOfParts([LabelDef(start)], test.lines, body.lines, step.lines, end, l);
    DefsOfTwo(Jmp(start), LabelDef(start + 1), l);
  }

  lemma {:induction false} DoWhileLabels(b: Stmt, cond: Expr, c: nat, l: nat)
    ensures var r := GenDo(b, cond, c); c <= r.next && Owns(r.lines, l, c, r.next)
    decreases b, 4
  {
    hide GenStatement; hide GenCondition; hide Defs;
    DefsOfOne(LabelDef(c), l);
    var body := GenStatement(b, c + 2);
    var test := GenCondition(cond, c + 1, false, body.next);
    StatementLabels(b, c + 2, l);
    ConditionLabels(cond, c + 1, false, body.next, l);
    var end := [Jmp(c), LabelDef(c + 1)];
    assert end == [] + end;
    DefsOfParts([LabelDef(c)], body.lines, test.lines, [], end, l);
    DefsOfTwo(Jmp(c), LabelDef(c + 1), l);
  }

  lemma {:induction false} StatementsLabels(ss: seq<Stmt>, c: nat, l: nat)
    ensures var r := GenStatements(ss, c); c <= r.next && Owns(r.lines, l, c, r.next)
    decreases ss, 2
  {
    if ss != [] {
      var first := GenStatement(ss[0], c);
      StatementLabels(ss[0], c, l);
      StatementsLabels(ss[1..], first.next, l);
      DefsAppend(first.lines, GenStatements(ss[1..], first.next).lines, l);
    }
  }

  /** Every label of a generated program is defined once. */
  ghost predicate UniqueLabels(code: seq<Line>) { forall l: nat :: Defs(code, l) <= 1 }

  lemma ProgramLabelsUnique(program: seq<Stmt>)
    ensures UniqueLabels(GenStatements(program, 0).lines)
  {
    forall l: nat ensures Defs(GenStatements(program, 0).lines, l) <= 1 {
      StatementsLabels(program, 0, l);
    }
  }

  lemma {:induction false} FindDefinition(code: seq<Line>, l: nat, k: nat)
    requires k < |code| && code[k] == LabelDef(l) && Defs(code, l) <= 1
    ensures Find(code, l) == k
  {
    if k > 0 {
      DefinedLater(code[1..], l, k - 1);
      FindDefinition(code[1..], l, k - 1);
    }
  }

  lemma {:induction false} DefinedLater(code: seq<Line>, l: nat, k: nat)
    requires k < |code| && code[k] == LabelDef(l)
    ensures Defs(code, l) >= 1
  {
    if k > 0 { DefinedLater(code[1..], l, k - 1); }
  }

  // ---- runs ----

  lemma {:induction false} RunAdd<W, S>(arch: Arch<W, S>, code: seq<Line>, cfg: Config<W, S>, a: nat, b: nat)
    ensures Run(arch, code, cfg, a + b) == Run(arch, code, Run(arch, code, cfg, a), b)
    decreases a
  {
    if a > 0 { RunAdd(arch, code, Step(arch, code, cfg), a - 1, b); }
  }

  lemma RunOne<W, S>(arch: Arch<W, S>, code: seq<Line>, cfg: Config<W, S>)
    ensures Run(arch, code, cfg, 1) == Step(arch, code, cfg)
  {
    assert Run(arch, code, cfg, 1) == Run(arch, code, Step(arch, code, cfg), 0);
  }

  lemma {:induction false} ReturnedStays<W, S>(arch: Arch<W, S>, code: seq<Line>, cfg: Config<W, S>, n: nat)
    requires !cfg.Running?
    ensures Run(arch, code, cfg, n) == cfg
  {
    if n > 0 { ReturnedStays(arch, code, cfg, n - 1); }
  }

  predicate At(code: seq<Line>, i: nat, lines: seq<Line>) {
    i + |lines| <= |code| && code[i..i + |lines|] == lines
  }

  lemma AtSplit(code: seq<Line>, i: nat, a: seq<Line>, b: seq<Line>)
    requires At(code, i, a + b)
    ensures At(code, i, a) && At(code, i + |a|, b)
  {
    assert a == (a + b)[..|a|] && b == (a + b)[|a|..];
  }

  lemma AtLine(code: seq<Line>, i: nat, line: Line, rest: seq<Line>)
    requires At(code, i, [line] + rest)
    ensures i < |code| && code[i] == line && At(code, i + 1, rest)
  {
    AtSplit(code, i, [line], rest);
    assert code[i] == code[i..i + 1][0];
  }

  // ---- expressions ----

  /** A constant or variable, under unary operators or not: its code changes the target only. */
  predicate IsBare(e: Expr)
    decreases e
  {
    IsLeaf(e) || (e.Unary? && IsBare(e.operand))
  }

  /**
    The value the generated code computes: a right operand that is not bare overwrites the left
    one, unary operators are dropped, and comparison and logical operators leave the left value.
   */
  function CodeValue<W, S>(arch: Arch<W, S>, e: Expr, st: S): W
    requires Plain(e)
    decreases e
  {
    if IsLeaf(e) then Leaf(arch, e, st)
    else if e.Unary? then CodeValue(arch, e.operand, st)
    else
      var right := CodeValue(arch, e.right, st);
      var left := if IsBare(e.right) then CodeValue(arch, e.left, st) else right;
      if AluOf(e.op).Some? then arch.alu(AluOf(e.op).value, left, right) else left
  }

  /** The registers after the code of `e`. */
  function RegsAfter<W, S>(arch: Arch<W, S>, e: Expr, target: Reg, regs: seq<W>, st: S): (r: seq<W>)
    requires Plain(e)
    ensures |r| == |regs|
    decreases e
  {
    if IsLeaf(e) then Set(regs, target, Leaf(arch, e, st))
    else if e.Unary? then RegsAfter(arch, e.operand, target, regs, st)
    else
      var left := RegsAfter(arch, e.left, R1, regs, st);
      var right := RegsAfter(arch, e.right, R2, left, st);
      Operated(arch, e.op, target, right)
  }

  /** The registers after the operation, if there is one, and the move. */
  function Operated<W, S>(arch: Arch<W, S>, op: TokenKind, target: Reg, regs: seq<W>): (r: seq<W>)
    ensures |r| == |regs|
  {
    var result :=
      if AluOf(op).None? then regs
      else Set(regs, R1, arch.alu(AluOf(op).value, Get(arch, regs, R1), Get(arch, regs, R2)));
    if target == R1 then result else Set(result, target, Get(arch, result, R1))
  }

  lemma {:induction false} ExpressionRuns<W, S>(arch: Arch<W, S>, code: seq<Line>, i: nat, e: Expr, target: Reg,
          c: nat, m: Machine<W, S>)
    requires Plain(e) && At(code, i, GenExpression(e, target, c).lines)
    ensures var n := |GenExpression(e, target, c).lines|;
      Run(arch, code, Running(i, m), n) == Running(i + n, m.(regs := RegsAfter(arch, e, target, m.regs, m.store)))
    decreases e, 1
  {
    if IsLeaf(e) {
      var line := GenExpression(e, target, c).lines[0];
      assert GenExpression(e, target, c).lines == [line] + [];
      AtLine(code, i, line, []);
      RunOne(arch, code, Running(i, m));
    } else if e.Unary? {
      hide Run; hide At;
      ExpressionRuns(arch, code, i, e.operand, target, c, m);
    } else {
      hide Run; hide At;
      BinaryRuns(arch, code, i, e, target, c, m);
    }
  }

  lemma {:induction false} BinaryRuns<W, S>(arch: Arch<W, S>, code: seq<Line>, i: nat, e: Expr, target: Reg, c: nat,
          m: Machine<W, S>)
    requires e.Binary? && Plain(e) && At(code, i, GenBinary(e.op, e.left, e.right, target, c).lines)
    ensures var n := |GenBinary(e.op, e.left, e.right, target, c).lines|;
      Run(arch, code, Running(i, m), n) == Running(i + n, m.(regs := RegsAfter(arch, e, target, m.regs, m.store)))
    decreases e, 0
  {
    hide Step; hide Run; hide GenExpression; hide At; hide AluLines; hide MoveResult; hide Set; hide Operated;
    var left := GenExpression(e.left, R1, c);
    var right := GenExpression(e.right, R2, left.next);
    var tail := AluLines(e.op) + MoveResult(target);
    AtSplit(code, i, left.lines, right.lines + tail);
    AtSplit(code, i + |left.lines|, right.lines, tail);
    var i1 := i + |left.lines|;
    var m1 := m.(regs := RegsAfter(arch, e.left, R1, m.regs, m.store));
    var m2 := m1.(regs := RegsAfter(arch, e.right, R2, m1.regs, m.store));
    ExpressionRuns(arch, code, i, e.left, R1, c, m);
    ExpressionRuns(arch, code, i1, e.right, R2, left.next, m1);
    OperationRuns(arch, code, i1 + |right.lines|, e.op, target, m2);
    RunThree(arch, code, i, m, |left.lines|, m1, |right.lines|, m2, |tail|,
             m.(regs := RegsAfter(arch, e, target, m.regs, m.store)));
  }

  lemma RunThree<W, S>(arch: Arch<W, S>, code: seq<Line>, i: nat, m0: Machine<W, S>, a: nat, m1: Machine<W, S>,
                       b: nat, m2: Machine<W, S>, c: nat, m3: Machine<W, S>)
    requires Run(arch, code, Running(i, m0), a) == Running(i + a, m1)
    requires Run(arch, code, Running(i + a, m1), b) == Running(i + a + b, m2)
    requires Run(arch, code, Running(i + a + b, m2), c) == Running(i + a + b + c, m3)
    ensures Run(arch, code, Running(i, m0), a + (b + c)) == Running(i + (a + (b + c)), m3)
  {
    RunAdd(arch, code, Running(i, m0), a, b + c);
    RunAdd(arch, code, Running(i + a, m1), b, c);
  }

  lemma OperationRuns<W, S>(arch: Arch<W, S>, code: seq<Line>, i: nat, op: TokenKind, target: Reg, m: Machine<W, S>)
    requires At(code, i, AluLines(op) + MoveResult(target))
    ensures var n := |AluLines(op) + MoveResult(target)|;
      Run(arch, code, Running(i, m), n) == Running(i + n, m.(regs := Operated(arch, op, target, m.regs)))
  {
    hide Run; hide At; hide Step;
    if AluOf(op).Some? {
      var result := Set(m.regs, R1, arch.alu(AluOf(op).value, Get(arch, m.regs, R1), Get(arch, m.regs, R2)));
      AtLine(code, i, Alu(AluOf(op).value), MoveResult(target));
      AluRuns(arch, code, i, AluOf(op).value, m);
      MoveRuns(arch, code, i + 1, target, m.(regs := result));
      RunAdd(arch, code, Running(i, m), 1, |MoveResult(target)|);
    } else {
      assert [] + MoveResult(target) == MoveResult(target);
      MoveRuns(arch, code, i, target, m);
    }
  }

  lemma AluRuns<W, S>(arch: Arch<W, S>, code: seq<Line>, i: nat, op: AluOp, m: Machine<W, S>)
    requires i < |code| && code[i] == Alu(op)
    ensures var result := Set(m.regs, R1, arch.alu(op, Get(arch, m.regs, R1), Get(arch, m.regs, R2)));
      Run(arch, code, Running(i, m), 1) == Running(i + 1, m.(regs := result))
  {
    hide Run;
    RunOne(arch, code, Running(i, m));
  }

  lemma MoveRuns<W, S>(arch: Arch<W, S>, code: seq<Line>, i: nat, target: Reg, m: Machine<W, S>)
    requires At(code, i, MoveResult(target))
    ensures var regs := if target == R1 then m.regs else Set(m.regs, target, Get(arch, m.regs, R1));
      var n := |MoveResult(target)|;
      Run(arch, code, Running(i, m), n) == Running(i + n, m.(regs := regs))
  {
    if target != R1 {
      assert MoveResult(target) == [MovReg(target, R1)] + [];
      AtLine(code, i, MovReg(target, R1), []);
      hide Run;
      RunOne(arch, code, Running(i, m));
    }
  }

  /** The code of an expression leaves its code value in the target and changes r1, r2 and the target only. */
  lemma {:induction false} RegistersAfter<W, S>(arch: Arch<W, S>, e: Expr, target: Reg, regs: seq<W>, st: S)
    requires Plain(e) && 2 < |regs| && target < |regs|
    ensures var r := RegsAfter(arch, e, target, regs, st);
      r[target] == CodeValue(arch, e, st)
      && (forall k | 0 <= k < |regs| && k != target && (IsBare(e) || (k != R1 && k != R2)) :: r[k] == regs[k])
    decreases e
  {
    if IsLeaf(e) {
    } else if e.Unary? {
      RegistersAfter(arch, e.operand, target, regs, st);
    } else {
      var left := RegsAfter(arch, e.left, R1, regs, st);
      RegistersAfter(arch, e.left, R1, regs, st);
      RegistersAfter(arch, e.right, R2, left, st);
      if !IsBare(e.right) { RightOverwrites(arch, e.right, left, st); }
    }
  }

  /** The code of a right operand that is not bare leaves its value in r1 as well. */
  lemma {:induction false} RightOverwrites<W, S>(arch: Arch<W, S>, e: Expr, regs: seq<W>, st: S)
    requires Plain(e) && !IsBare(e) && 2 < |regs|
    ensures var r := RegsAfter(arch, e, R2, regs, st); r[R1] == r[R2]
    decreases e
  {
    if e.Unary? { RightOverwrites(arch, e.operand, regs, st); }
  }

  // ---- when the code computes the value ----

  lemma {:induction false} RightLeafComputes<W, S>(arch: Arch<W, S>, e: Expr, st: S)
    requires Arithmetic(e) && RightLeaf(e)
    ensures CodeValue(arch, e, st) == Eval(arch, e, st)
    decreases e
  {
    if !IsLeaf(e) {
      RightLeafComputes(arch, e.left, st);
      if !IsLeaf(e.right) { RightLeafComputes(arch, e.right, st); }
    }
  }

  /** An operator token for each operation. */
  function TokenOf(op: AluOp): (k: TokenKind)
    ensures AluOf(k) == Some(op)
  {
    match op
    case ADD => PLUS case SUB => MINUS case MUL => STAR case DIV => SLASH case REM => PERCENT
    case AND => AMPER case OR => PIPE case XOR => CARET case SLL => LSHIFT case SRL => RSHIFT
  }

  /** The free arithmetic, in which a value is the expression that computed it. */
  const Free: Arch<Expr, ()> := Arch(
    v => Constant(v), (st, x) => Variable(x), (op, a, b) => Binary(TokenOf(op), a, b),
    (op, prefix, a) => Unary(op, a, prefix), (op, a, b) => Binary(op, a, b),
    Constant(0), (a, b) => a == b, (a, b) => false, (code, st) => st, (code, i, regs) => Constant(0),
    (st, a) => Deref(a), x => AddressOf(Variable(x)), l => Constant(0), (f, regs, st) => st,
    (f, i, regs, st) => Constant(0))

  lemma {:induction false} FreeEval(e: Expr)
    requires Plain(e)
    ensures Eval(Free, e, ()) == e
    decreases e
  {
    if IsLeaf(e) {
    } else if e.Unary? {
      FreeEval(e.operand);
    } else {
      FreeEval(e.left);
      FreeEval(e.right);
      if AluOf(e.op).Some? { assert TokenOf(AluOf(e.op).value) == e.op; }
    }
  }

  /** Code computes arithmetic only. */
  lemma {:induction false} CodeIsArithmetic(e: Expr)
    requires Plain(e)
    ensures Arithmetic(CodeValue(Free, e, ()))
    decreases e
  {
    if IsLeaf(e) {
    } else if e.Unary? {
      CodeIsArithmetic(e.operand);
    } else {
      CodeIsArithmetic(e.left);
      CodeIsArithmetic(e.right);
    }
  }

  lemma {:induction false} FreeCodeValue(e: Expr)
    requires Arithmetic(e) && CodeValue(Free, e, ()) == e
    ensures RightLeaf(e)
    decreases e
  {
    if !IsLeaf(e) {
      BareArithmetic(e.right);
      if IsLeaf(e.right) {
        FreeCodeValue(e.left);
      } else {
        FreeCodeValue(e.right);
      }
    }
  }

  lemma BareArithmetic(e: Expr)
    requires Arithmetic(e)
    ensures IsBare(e) <==> IsLeaf(e)
  {
  }

  /**
    The code of an expression computes its value exactly when it has arithmetic operators only
    and every right operand is a leaf or repeats the left one: over the free operators, and then
    on every machine and whatever the other operators mean.
   */
  lemma ComputesExactlyWhen(e: Expr)
    requires Plain(e)
    ensures CodeValue(Free, e, ()) == Eval(Free, e, ()) <==> Arithmetic(e) && RightLeaf(e)
    ensures (forall arch: Arch<Expr, ()> :: CodeValue(arch, e, ()) == Eval(arch, e, ()))
      <==> Arithmetic(e) && RightLeaf(e)
  {
    FreeEval(e);
    CodeIsArithmetic(e);
    if CodeValue(Free, e, ()) == e { FreeCodeValue(e); }
    if Arithmetic(e) && RightLeaf(e) {
      forall arch: Arch<Expr, ()> ensures CodeValue(arch, e, ()) == Eval(arch, e, ()) {
        RightLeafComputes(arch, e, ());
      }
    }
  }

  const Subtraction: Arch<int, ()> := Arch(
    v => v, (st, x) => 0, (op, a, b) => a - b, (op, prefix, a) => -a, (op, a, b) => 0, 0,
    (a, b) => a == b, (a, b) => a < b, (code, st) => st, (code, i, regs) => 0, (st, a) => 0, x => 0, l => 0,
    (f, regs, st) => st, (f, i, regs, st) => 0)

  /** `9 - (5 - 2)` compiles to code that computes `3 - 3`. */
  lemma RightNestedSubtractionFails()
    ensures var e := Binary(MINUS, Constant(9), Binary(MINUS, Constant(5), Constant(2)));
      Arithmetic(e) && Eval(Subtraction, e, ()) == 6 && CodeValue(Subtraction, e, ()) == 0
  {
  }
}
