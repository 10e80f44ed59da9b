/**
  The code generator: structured statements to labelled pseudo-assembly.

  A line of output is a value rather than its text; the comments give the text.  The class
  appends to `output` and numbers labels as it walks the tree; the functions beside it say
  what is appended, from the tree and the next free label number alone.
 */
module CodeGen {
  import opened Ast

  type Reg = nat
  const R1: Reg := 1
  const R2: Reg := 2

  datatype BranchOp = BEQ | BNE | BLT | BGE | BGT | BLE
  datatype AluOp = ADD | SUB | MUL | DIV | REM | AND | OR | XOR | SLL | SRL

  datatype Line =
    | SectionText                          // .section .text
    | Global(name: string)                 // .global f
    | FunctionLabel(name: string)          // f:
    | EnterFrame                           // enter $0, $0
    | LabelDef(id: nat)                 // .L3
    | Jmp(id: nat)                      // jmp .L3
    | Branch(bop: BranchOp, id: nat)    // blt r1, r2, .L3
    | BranchZero(bop: BranchOp, id: nat) // beq r1, r0, .L3
    | MovConst(rd: Reg, value: nat)        // mov r1, 42
    | MovVar(rd: Reg, name: string)        // mov r1, x
    | MovReg(rd: Reg, rs: Reg)             // mov r2, r1
    | MovAddress(rd: Reg, name: string)    // mov r1, $x
    | MovLabel(rd: Reg, id: nat)        // mov r1, $.L3
    | Alu(op: AluOp)                       // add r1, r1, r2
    | StringDef(id: nat, text: string)  // .L3: .string text
    | CallFunction(name: string)           // call f
    | LoadD(rd: Reg, rs: Reg)              // LD.D r1, [r1]
    | ScaleIndex                           // sll r2, r2, 3
    | Ret                                  // ret
    | AsmLine(code: string)                // the inline assembly text

  /** Lines, and the next free label number after them. */
  datatype Emitted = Emitted(lines: seq<Line>, next: nat)

  function AluOf(op: TokenKind): Option<AluOp> {
    if op == PLUS then Some(ADD)
    else if op == MINUS then Some(SUB)
    else if op == STAR then Some(MUL)
    else if op == SLASH then Some(DIV)
    else if op == PERCENT then Some(REM)
    else if op == AMPER then Some(AND)
    else if op == PIPE then Some(OR)
    else if op == CARET then Some(XOR)
    else if op == LSHIFT then Some(SLL)
    else if op == RSHIFT then Some(SRL)
    else None
  }

  /** The branch that leaves for the label: taken when the comparison fails, or holds if inverted. */
  function BranchOf(op: TokenKind, invert: bool): Option<BranchOp> {
    if op == EQEQ then Some(if invert then BEQ else BNE)
    else if op == NEQ then Some(if invert then BNE else BEQ)
    else if op == LT then Some(if invert then BLT else BGE)
    else if op == LE then Some(if invert then BLE else BGT)
    else if op == GT then Some(if invert then BGT else BLE)
    else if op == GE then Some(if invert then BGE else BLT)
    else None
  }

  function AluLines(op: TokenKind): seq<Line> {
    if AluOf(op).Some? then [Alu(AluOf(op).value)] else []
  }

  function MoveResult(target: Reg): seq<Line> {
    if target != R1 then [MovReg(target, R1)] else []
  }

  // ---- what is emitted ----

  function GenExpression(e: Expr, target: Reg, c: nat): (r: Emitted)
    decreases e, 1
  {
    match e
    case Constant(v) => Emitted([MovConst(target, v)], c)
    case Variable(x) => Emitted([MovVar(target, x)], c)
    case Binary(op, l, r) => GenBinary(op, l, r, target, c)
    case Unary(_, x, _) => GenExpression(x, target, c)
    case Assign(_, v) =>
      var value := GenExpression(v, R1, c);
      Emitted(value.lines + [MovReg(target, R1)], value.next)
    case AddressOf(x) => Emitted(if x.Variable? then [MovAddress(target, x.name)] else [], c)
    case StringLit(text) => Emitted([StringDef(c, text), MovLabel(target, c)], c + 1)
    case Call(f, args) =>
      var loaded := GenArguments(args, R1, c);
      Emitted(loaded.lines + ([CallFunction(f)] + MoveResult(target)), loaded.next)
    case Deref(x) =>
      var address := GenExpression(x, target, c);
      Emitted(address.lines + [LoadD(target, target)], address.next)
    case Index(a, i) => GenIndex(a, i, target, c)
    case _ => Emitted([], c)
  }

  function GenBinary(op: TokenKind, l: Expr, r: Expr, target: Reg, c: nat): Emitted
    decreases Binary(op, l, r), 0
  {
    var left := GenExpression(l, R1, c);
    var right := GenExpression(r, R2, left.next);
    Emitted(left.lines + (right.lines + (AluLines(op) + MoveResult(target))), right.next)
  }

  function GenIndex(a: Expr, i: Expr, target: Reg, c: nat): Emitted
    decreases Index(a, i), 0
  {
    var base := GenExpression(a, R1, c);
    var index := GenExpression(i, R2, base.next);
    Emitted(base.lines + (index.lines + LoadElement(target)), index.next)
  }

  function LoadElement(target: Reg): seq<Line> {
    [ScaleIndex] + [Alu(ADD), LoadD(target, R1)]
  }

  /** Arguments go to consecutive registers from `r` on. */
  function GenArguments(args: seq<Expr>, r: Reg, c: nat): Emitted
    decreases args
  {
    if args == [] then Emitted([], c)
    else
      var first := GenExpression(args[0], r, c);
      var more := GenArguments(args[1..], r + 1, first.next);
      Emitted(first.lines + more.lines, more.next)
  }

  function GenCondition(e: Expr, exit: nat, invert: bool, c: nat): Emitted {
    if e.Binary? then
      var left := GenExpression(e.left, R1, c);
      var right := GenExpression(e.right, R2, left.next);
      var b := BranchOf(e.op, invert);
      Emitted(left.lines + (right.lines + (if b.Some? then [Branch(b.value, exit)] else [])), right.next)
    else
      var value := GenExpression(e, R1, c);
      Emitted(value.lines + [BranchZero(if invert then BNE else BEQ, exit)], value.next)
  }

  function GenOption(e: Option<Expr>, c: nat): Emitted {
    if e.Some? then GenExpression(e.value, R1, c) else Emitted([], c)
  }

  function GenStatement(s: Stmt, c: nat): (r: Emitted)
    decreases s, 1
  {
    match s
    case Block(ss) => GenStatements(ss, c)
    case If(_, _, _) => GenIf(s, c)
    case While(cond, b) => GenLoop(Some(cond), b, None, c, c + 2)
    case For(i, cond, n, b) =>
      var init := GenOption(i, c + 2);
      var loop := GenLoop(cond, b, n, c, init.next);
      Emitted(init.lines + loop.lines, loop.next)
    case DoWhile(b, cond) => GenDo(b, cond, c)
    case Return(e) =>
      var value := GenOption(e, c);
      Emitted(value.lines + [Ret], value.next)
    case AsmStmt(code) => Emitted([AsmLine(code)], c)
    case ExprStmt(e) => Emitted(if e.Asm? then [AsmLine(e.code)] else [], c)
    case VariableDecl(name, _, init, _, _) =>
      if init.Some? then
        var value := GenExpression(init.value, R1, c);
        Emitted(value.lines + [MovVar(R1, name)], value.next)
      else Emitted([], c)
    case FunctionDef(name, _, _, body) =>
      if body.None? then Emitted([], c)
      else
        var code := GenStatement(body.value, c);
        Emitted(Prologue(name) + (code.lines + [Ret]), code.next)
    case _ => Emitted([], c)
  }

  /** Label `c` starts the else part, label `c + 1` ends the statement. */
  function GenIf(s: Stmt, c: nat): Emitted
    requires s.If?
    decreases s, 0
  {
    var test := GenCondition(s.cond, c, false, c + 2);
    var yes := GenStatement(s.thenBody, test.next);
    if s.elseBody.Some? then
      var no := GenStatement(s.elseBody.value, yes.next);
      Emitted(test.lines + (yes.lines + ([Jmp(c + 1), LabelDef(c)] + (no.lines + [LabelDef(c + 1)]))), no.next)
    else Emitted(test.lines + (yes.lines + [LabelDef(c)]), yes.next)
  }

  function GenDo(b: Stmt, cond: Expr, c: nat): Emitted
    decreases b, 2
  {
    var body := GenStatement(b, c + 2);
    var test := GenCondition(cond, c + 1, false, body.next);
    Emitted([LabelDef(c)] + (body.lines + (test.lines + [Jmp(c), LabelDef(c + 1)])), test.next)
  }

  /** The part `while` and `for` share: labels `start` and `start + 1` enclose test, body and step. */
  function GenLoop(cond: Option<Expr>, b: Stmt, inc: Option<Expr>, start: nat, c: nat): Emitted
    decreases b, 2
  {
    var test := if cond.Some? then GenCondition(cond.value, start + 1, false, c) else Emitted([], c);
    var body := GenStatement(b, test.next);
    var step := GenOption(inc, body.next);
    Emitted([LabelDef(start)] + (test.lines + (body.lines + (step.lines + [Jmp(start), LabelDef(start + 1)]))),
      step.next)
  }

  function Prologue(name: string): seq<Line> {
    [SectionText, Global(name), FunctionLabel(name), EnterFrame]
  }

  function GenStatements(ss: seq<Stmt>, c: nat): Emitted
    decreases ss
  {
    if ss == [] then Emitted([], c)
    else
      var first := GenStatement(ss[0], c);
      var more := GenStatements(ss[1..], first.next);
      Emitted(first.lines + more.lines, more.next)
  }

  /** Appending piece by piece appends the nested whole. */
  lemma Appending<T>(o: seq<T>, a: seq<T>, b: seq<T>, c: seq<T>, d: seq<T>, e: seq<T>)
    ensures o + a + b + c + d + e == o + (a + (b + (c + (d + e))))
  {
  }

  lemma Grouping<T>(o: seq<T>, a: seq<T>, b: seq<T>, c: seq<T>, d: seq<T>)
    ensures o + a + b + c + d == o + (a + (b + (c + d)))
  {
  }

  // ---- the generator ----

  class CodeGen {
    var output: seq<Line>
    var labelCounter: nat

    constructor ()
      ensures output == [] && labelCounter == 0
    {
      output := [];
      labelCounter := 0;
    }

    /** The lines `e` were appended and the counter moved to its next free label. */
    twostate predicate Appended(e: Emitted)
      reads this
    {
      output == old(output) + e.lines && labelCounter == e.next
    }

    method NewLabel() returns (l: nat)
      modifies this`labelCounter
      ensures l == old(labelCounter) && labelCounter == l + 1
    {
      l := labelCounter;
      labelCounter := labelCounter + 1;
    }

    method Emit(line: Line)
      modifies this`output
      ensures output == old(output) + [line]
    {
      output := output + [line];
    }

    method EmitArguments(args: seq<Expr>)
      modifies this
      ensures Appended(GenArguments(args, R1, old(labelCounter)))
      decreases args, 0
    {
      for i := 0 to |args|
        invariant output + GenArguments(args[i..], R1 + i, labelCounter).lines ==
                  old(output) + GenArguments(args, R1, old(labelCounter)).lines
        invariant GenArguments(args[i..], R1 + i, labelCounter).next == GenArguments(args, R1, old(labelCounter)).next
      {
        assert args[i..][1..] == args[i + 1..];
        EmitExpression(args[i], R1 + i);
      }
    }

    method EmitCall(f: string, args: seq<Expr>, target: Reg)
      modifies this
      ensures Appended(GenExpression(Call(f, args), target, old(labelCounter)))
      decreases args, 1
    {
      EmitArguments(args);
      ghost var loaded := GenArguments(args, R1, old(labelCounter)).lines;
      Emit(CallFunction(f));
      if target != R1 { Emit(MovReg(target, R1)); }
      Appending(old(output), loaded, [CallFunction(f)], MoveResult(target), [], []);
    }

    method EmitExpression(e: Expr, target: Reg)
      modifies this
      ensures Appended(GenExpression(e, target, old(labelCounter)))
      decreases e, 2
    {
      hide GenBinary; hide GenIndex; hide GenArguments;
      match e
      case Constant(v) => Emit(MovConst(target, v));
      case Variable(x) => Emit(MovVar(target, x));
      case Binary(op, l, r) =>
        EmitBinary(op, l, r, target);
      case Unary(_, x, _) => EmitExpression(x, target);
      case Assign(_, v) =>
        EmitExpression(v, R1);
        Emit(MovReg(target, R1));
      case AddressOf(x) =>
        if x.Variable? { Emit(MovAddress(target, x.name)); }
      case StringLit(text) =>
        var l := NewLabel();
        Emit(StringDef(l, text));
        Emit(MovLabel(target, l));
      case Call(f, args) =>
        EmitCall(f, args, target);
      case Deref(x) =>
        EmitExpression(x, target);
        Emit(LoadD(target, target));
      case Index(a, i) =>
        EmitIndex(a, i, target);
      case _ =>
    }

    method EmitBinary(op: TokenKind, l: Expr, r: Expr, target: Reg)
      modifies this
      ensures Appended(GenBinary(op, l, r, target, old(labelCounter)))
      decreases Binary(op, l, r), 0
    {
      hide GenExpression; hide AluLines; hide MoveResult;
      ghost var left := GenExpression(l, R1, labelCounter).lines;
      EmitExpression(l, R1);
      ghost var right := GenExpression(r, R2, labelCounter).lines;
      EmitExpression(r, R2);
      EmitAlu(op);
      EmitMove(target);
      Grouping(old(output), left, right, AluLines(op), MoveResult(target));
    }

    /** The operation, for the operators that have one. */
    method EmitAlu(op: TokenKind)
      modifies this`output
      ensures output == old(output) + AluLines(op)
    {
      hide AluOf;
      var alu := AluOf(op);
      if alu.Some? { Emit(Alu(alu.value)); }
    }

    /** The result is in R1; it moves if it is wanted elsewhere. */
    method EmitMove(target: Reg)
      modifies this`output
      ensures output == old(output) + MoveResult(target)
    {
      if target != R1 { Emit(MovReg(target, R1)); }
    }

    method EmitIndex(a: Expr, i: Expr, target: Reg)
      modifies this
      ensures Appended(GenIndex(a, i, target, old(labelCounter)))
      decreases Index(a, i), 0
    {
      hide GenExpression;
      EmitExpression(a, R1);
      EmitExpression(i, R2);
      Emit(ScaleIndex);
      Emit(Alu(ADD));
      Emit(LoadD(target, R1));
    }

    method EmitCondition(e: Expr, exit: nat, invert: bool)
      modifies this
      ensures Appended(GenCondition(e, exit, invert, old(labelCounter)))
    {
      if e.Binary? {
        EmitExpression(e.left, R1);
        EmitExpression(e.right, R2);
        var b := BranchOf(e.op, invert);
        if b.Some? { Emit(Branch(b.value, exit)); }
        return;
      }
      EmitExpression(e, R1);
      if invert { Emit(BranchZero(BNE, exit)); } else { Emit(BranchZero(BEQ, exit)); }
    }

    method EmitStatement(s: Stmt)
      modifies this
      ensures Appended(GenStatement(s, old(labelCounter)))
      decreases s, 1
    {
      hide GenIf; hide GenLoop; hide GenDo; hide GenExpression;
      match s
      case Block(ss) => EmitStatements(ss);
      case If(_, _, _) => EmitIf(s);
      case While(_, _) => EmitWhile(s);
      case For(_, _, _, _) => EmitFor(s);
      case DoWhile(_, _) => EmitDoWhile(s);
      case Return(e) =>
        if e.Some? { EmitExpression(e.value, R1); }
        Emit(Ret);
      case AsmStmt(code) => Emit(AsmLine(code));
      case ExprStmt(e) =>
        if e.Asm? { Emit(AsmLine(e.code)); }
      case VariableDecl(name, _, init, _, _) =>
        if init.Some? {
          EmitExpression(init.value, R1);
          Emit(MovVar(R1, name));
        }
      case FunctionDef(name, _, _, body) =>
        if body.Some? {
          Emit(SectionText);
          Emit(Global(name));
          Emit(FunctionLabel(name));
          Emit(EnterFrame);
          EmitStatement(body.value);
          Emit(Ret);
        }
      case _ =>
    }

    method EmitIf(s: Stmt)
      requires s.If?
      modifies this
      ensures Appended(GenIf(s, old(labelCounter)))
      decreases s, 0
    {
      hide GenStatement; hide GenCondition;
      var elseLabel := NewLabel();
      var endLabel := NewLabel();
      ghost var test := GenCondition(s.cond, elseLabel, false, labelCounter).lines;
      EmitCondition(s.cond, elseLabel, false);
      ghost var yes := GenStatement(s.thenBody, labelCounter).lines;
      EmitStatement(s.thenBody);
      if s.elseBody.Some? {
        Emit(Jmp(endLabel));
        Emit(LabelDef(elseLabel));
        ghost var mid := [Jmp(endLabel), LabelDef(elseLabel)];
        assert output == old(output) + test + yes + mid;
        ghost var no := GenStatement(s.elseBody.value, labelCounter).lines;
        EmitStatement(s.elseBody.value);
        Emit(LabelDef(endLabel));
        Appending(old(output), test, yes, mid, no, [LabelDef(endLabel)]);
      } else {
        Emit(LabelDef(elseLabel));
        assert old(output) + test + yes + [LabelDef(elseLabel)] == old(output) + (test + (yes + [LabelDef(elseLabel)]));
      }
    }

    method EmitWhile(s: Stmt)
      requires s.While?
      modifies this
      ensures Appended(GenStatement(s, old(labelCounter)))
      decreases s, 0
    {
      var start := NewLabel();
      var end := NewLabel();
      EmitLoop(Some(s.cond), s.body, None, start, end);
    }

    method EmitFor(s: Stmt)
      requires s.For?
      modifies this
      ensures Appended(GenStatement(s, old(labelCounter)))
      decreases s, 0
    {
      hide GenLoop; hide GenExpression;
      var start := NewLabel();
      var end := NewLabel();
      ghost var init := GenOption(s.init, labelCounter).lines;
      if s.init.Some? { EmitExpression(s.init.value, R1); }
      assert output == old(output) + init;
      ghost var loop := GenLoop(s.forCond, s.body, s.inc, start, labelCounter).lines;
      EmitLoop(s.forCond, s.body, s.inc, start, end);
      assert old(output) + init + loop == old(output) + (init + loop);
    }

    method EmitLoop(cond: Option<Expr>, b: Stmt, inc: Option<Expr>, start: nat, end: nat)
      requires end == start + 1
      modifies this
      ensures Appended(GenLoop(cond, b, inc, start, old(labelCounter)))
      decreases b, 2
    {
      hide GenStatement; hide GenCondition; hide GenExpression;
      Emit(LabelDef(start));
      ghost var test := if cond.Some? then GenCondition(cond.value, end, false, labelCounter)
        else Emitted([], labelCounter);
      if cond.Some? { EmitCondition(cond.value, end, false); }
      assert output == old(output) + [LabelDef(start)] + test.lines;
      ghost var body := GenStatement(b, labelCounter);
      EmitStatement(b);
      ghost var step := GenOption(inc, labelCounter);
      if inc.Some? { EmitExpression(inc.value, R1); }
      assert output == old(output) + [LabelDef(start)] + test.lines + body.lines + step.lines;
      Emit(Jmp(start));
      Emit(LabelDef(end));
      Appending(old(output), [LabelDef(start)], test.lines, body.lines, step.lines, [Jmp(start), LabelDef(end)]);
    }

    method EmitDoWhile(s: Stmt)
      requires s.DoWhile?
      modifies this
      ensures Appended(GenDo(s.body, s.cond, old(labelCounter)))
      decreases s, 0
    {
      hide GenStatement; hide GenCondition;
      var start := NewLabel();
      var end := NewLabel();
      Emit(LabelDef(start));
      EmitStatement(s.body);
      EmitCondition(s.cond, end, false);
      Emit(Jmp(start));
      Emit(LabelDef(end));
    }

    method EmitStatements(ss: seq<Stmt>)
      modifies this
      ensures Appended(GenStatements(ss, old(labelCounter)))
      decreases ss
    {
      for i := 0 to |ss|
        invariant output + GenStatements(ss[i..], labelCounter).lines ==
                  old(output) + GenStatements(ss, old(labelCounter)).lines
        invariant GenStatements(ss[i..], labelCounter).next == GenStatements(ss, old(labelCounter)).next
      {
        assert ss[i..][1..] == ss[i + 1..];
        EmitStatement(ss[i]);
      }
    }

    /** A whole program: its declarations in order. */
    method Gen(program: seq<Stmt>)
      modifies this
      ensures Appended(GenStatements(program, old(labelCounter)))
    {
      EmitStatements(program);
    }
  }
}
