/**
  The code of every expression: addresses, dereferences, indexing, calls and assignments as well
  as operators.  What it does to the machine, what value it leaves in the target, and exactly
  when that is the value of the expression.
 */
module CodeMemory {
  import opened Ast
  import opened CodeGen
  import opened CodeSemantics
  import opened CodeTheorems

  // ---- what the code does ----

  /** Everything but string literals, whose code runs into the bytes of the string. */
  predicate Runs(e: Expr)
    decreases e
  {
    match e
    case StringLit(_) => false
    case Binary(_, l, r) => Runs(l) && Runs(r)
    case Unary(_, x, _) => Runs(x)
    case Assign(_, v) => Runs(v)
    case Call(_, args) => forall x | x in args :: Runs(x)
    case Deref(x) => Runs(x)
    case Index(a, i) => Runs(a) && Runs(i)
    case _ => true
  }

  function Put<W, S>(m: Machine<W, S>, r: Reg, v: W): Machine<W, S> { m.(regs := Set(m.regs, r, v)) }

  /** The machine after the code of `e`. */
  function After<W, S>(arch: Arch<W, S>, e: Expr, target: Reg, m: Machine<W, S>): Machine<W, S>
    requires Runs(e)
    decreases e
  {
    match e
    case Constant(v) => Put(m, target, arch.constant(v))
    case Variable(x) => Put(m, target, arch.load(m.store, x))
    case Binary(op, l, r) =>
      var both := After(arch, r, R2, After(arch, l, R1, m));
      both.(regs := Operated(arch, op, target, both.regs))
    case Unary(_, x, _) => After(arch, x, target, m)
    case Assign(_, v) =>
      var m1 := After(arch, v, R1, m);
      Put(m1, target, Get(arch, m1.regs, R1))
    case AddressOf(x) => if x.Variable? then Put(m, target, arch.address(x.name)) else m
    case Call(f, args) => Moved(arch, target, AfterCall(arch, f, AfterArguments(arch, args, R1, m)))
    case Deref(x) =>
      var m1 := After(arch, x, target, m);
      Put(m1, target, arch.read(m1.store, Get(arch, m1.regs, target)))
    case Index(a, i) => Element(arch, target, After(arch, i, R2, After(arch, a, R1, m)))
    case _ => m
  }

  function AfterArguments<W, S>(arch: Arch<W, S>, args: seq<Expr>, r: Reg, m: Machine<W, S>): Machine<W, S>
    requires forall x | x in args :: Runs(x)
    decreases args
  {
    if args == [] then m else AfterArguments(arch, args[1..], r + 1, After(arch, args[0], r, m))
  }

  function Moved<W, S>(arch: Arch<W, S>, target: Reg, m: Machine<W, S>): Machine<W, S> {
    if target == R1 then m else Put(m, target, Get(arch, m.regs, R1))
  }

  /** The base in r1 and the index in r2 become the address in r1; the target gets what is there. */
  function Element<W, S>(arch: Arch<W, S>, target: Reg, m: Machine<W, S>): Machine<W, S> {
    var m1 := Put(m, R2, arch.alu(SLL, Get(arch, m.regs, R2), arch.constant(3)));
    var m2 := Put(m1, R1, arch.alu(ADD, Get(arch, m1.regs, R1), Get(arch, m1.regs, R2)));
    Put(m2, target, arch.read(m2.store, Get(arch, m2.regs, R1)))
  }

  /** From `i` on, `n` lines run to their end and leave `m'`. */
  ghost predicate Reaches<W, S>(arch: Arch<W, S>, code: seq<Line>, i: nat, n: nat, m: Machine<W, S>,
          m': Machine<W, S>)
  {
    Run(arch, code, Running(i, m), n) == Running(i + n, m')
  }

  lemma ReachesBoth<W, S>(arch: Arch<W, S>, code: seq<Line>, i: nat, a: nat, b: nat, m0: Machine<W, S>,
                          m1: Machine<W, S>, m2: Machine<W, S>)
    requires Reaches(arch, code, i, a, m0, m1) && Reaches(arch, code, i + a, b, m1, m2)
    ensures Reaches(arch, code, i, a + b, m0, m2)
  {
    RunAdd(arch, code, Running(i, m0), a, b);
  }

  lemma LineReaches<W, S>(arch: Arch<W, S>, code: seq<Line>, i: nat, line: Line, rest: seq<Line>, m: Machine<W, S>,
                          m': Machine<W, S>)
    requires At(code, i, [line] + rest) && Step(arch, code, Running(i, m)) == Running(i + 1, m')
    ensures Reaches(arch, code, i, 1, m, m') && At(code, i + 1, rest)
  {
    AtLine(code, i, line, rest);
    RunOne(arch, code, Running(i, m));
  }

  lemma LastLineReaches<W, S>(arch: Arch<W, S>, code: seq<Line>, i: nat, line: Line, m: Machine<W, S>,
                              m': Machine<W, S>)
    requires At(code, i, [line]) && Step(arch, code, Running(i, m)) == Running(i + 1, m')
    ensures Reaches(arch, code, i, 1, m, m')
  {
    assert [line] + [] == [line];
    LineReaches(arch, code, i, line, [], m, m');
  }

  /** Anywhere in a program the code of an expression without string literals runs to its end. */
  lemma {:induction false} CodeRuns<W, S>(arch: Arch<W, S>, code: seq<Line>, i: nat, e: Expr, target: Reg, c: nat,
          m: Machine<W, S>)
    requires Runs(e) && At(code, i, GenExpression(e, target, c).lines)
    ensures Reaches(arch, code, i, |GenExpression(e, target, c).lines|, m, After(arch, e, target, m))
    decreases e, 1
  {
    hide Reaches; hide Run;
    match e
    case Binary(_, _, _) =>
      hide At; hide Step;
      OperatorRuns(arch, code, i, e, target, c, m);
    case Unary(_, x, _) =>
      hide At; hide Step;
      CodeRuns(arch, code, i, x, target, c, m);
    case Assign(_, v) =>
      hide At; hide Step;
      AssignRuns(arch, code, i, e, target, c, m);
    case Call(_, _) =>
      hide At; hide Step;
      CallRuns(arch, code, i, e, target, c, m);
    case Deref(_) =>
      hide At; hide Step;
      DerefRuns(arch, code, i, e, target, c, m);
    case Index(_, _) =>
      hide At; hide Step;
      IndexRuns(arch, code, i, e, target, c, m);
    case _ =>
      SmallRuns(arch, code, i, e, target, c, m);
  }

  lemma SmallRuns<W, S>(arch: Arch<W, S>, code: seq<Line>, i: nat, e: Expr, target: Reg, c: nat, m: Machine<W, S>)
    requires !e.Binary? && !e.Unary? && !e.Assign? && !e.Call? && !e.Deref? && !e.Index? && Runs(e)
    requires At(code, i, GenExpression(e, target, c).lines)
    ensures Reaches(arch, code, i, |GenExpression(e, target, c).lines|, m, After(arch, e, target, m))
  {
    var lines := GenExpression(e, target, c).lines;
    if lines != [] {
      assert lines == [lines[0]];
      AtLine(code, i, lines[0], []);
      hide Run;
      LastLineReaches(arch, code, i, lines[0], m, After(arch, e, target, m));
    }
  }

  lemma {:induction false} OperatorRuns<W, S>(arch: Arch<W, S>, code: seq<Line>, i: nat, e: Expr, target: Reg, c: nat,
          m: Machine<W, S>)
    requires e.Binary? && Runs(e) && At(code, i, GenBinary(e.op, e.left, e.right, target, c).lines)
    ensures Reaches(arch, code, i, |GenBinary(e.op, e.left, e.right, target, c).lines|, m, After(arch, e, target, m))
    decreases e, 0
  {
    hide Step; hide Run; hide GenExpression; hide At; hide AluLines; hide MoveResult; hide Operated;
    var left := GenExpression(e.left, R1, c);
    var right := GenExpression(e.right, R2, left.next);
    var tail := AluLines(e.op) + MoveResult(target);
    var i1, i2 := i + |left.lines|, i + |left.lines| + |right.lines|;
    AtSplit(code, i, left.lines, right.lines + tail);
    AtSplit(code, i1, right.lines, tail);
    var m1 := After(arch, e.left, R1, m);
    var m2 := After(arch, e.right, R2, m1);
    CodeRuns(arch, code, i, e.left, R1, c, m);
    CodeRuns(arch, code, i1, e.right, R2, left.next, m1);
    OperationRuns(arch, code, i2, e.op, target, m2);
    assert Reaches(arch, code, i2, |tail|, m2, After(arch, e, target, m));
    hide Reaches;
    ReachesBoth(arch, code, i1, |right.lines|, |tail|, m1, m2, After(arch, e, target, m));
    ReachesBoth(arch, code, i, |left.lines|, |right.lines| + |tail|, m, m1, After(arch, e, target, m));
  }

  lemma {:induction false} AssignRuns<W, S>(arch: Arch<W, S>, code: seq<Line>, i: nat, e: Expr, target: Reg, c: nat,
          m: Machine<W, S>)
    requires e.Assign? && Runs(e) && At(code, i, GenExpression(e, target, c).lines)
    ensures Reaches(arch, code, i, |GenExpression(e, target, c).lines|, m, After(arch, e, target, m))
    decreases e, 0
  {
    hide Run; hide At; hide Reaches;
    var value := GenExpression(e.rhs, R1, c).lines;
    AtSplit(code, i, value, [MovReg(target, R1)]);
    var m1 := After(arch, e.rhs, R1, m);
    CodeRuns(arch, code, i, e.rhs, R1, c, m);
    OneLine(arch, code, i + |value|, MovReg(target, R1), m1, Put(m1, target, Get(arch, m1.regs, R1)));
    ReachesBoth(arch, code, i, |value|, 1, m, m1, After(arch, e, target, m));
  }

  lemma {:induction false} DerefRuns<W, S>(arch: Arch<W, S>, code: seq<Line>, i: nat, e: Expr, target: Reg, c: nat,
          m: Machine<W, S>)
    requires e.Deref? && Runs(e) && At(code, i, GenExpression(e, target, c).lines)
    ensures Reaches(arch, code, i, |GenExpression(e, target, c).lines|, m, After(arch, e, target, m))
    decreases e, 0
  {
    hide Run; hide At; hide Reaches;
    var value := GenExpression(e.operand, target, c).lines;
    AtSplit(code, i, value, [LoadD(target, target)]);
    var m1 := After(arch, e.operand, target, m);
    CodeRuns(arch, code, i, e.operand, target, c, m);
    OneLine(arch, code, i + |value|, LoadD(target, target), m1,
            Put(m1, target, arch.read(m1.store, Get(arch, m1.regs, target))));
    ReachesBoth(arch, code, i, |value|, 1, m, m1, After(arch, e, target, m));
  }

  /** One line, by what it does. */
  lemma OneLine<W, S>(arch: Arch<W, S>, code: seq<Line>, i: nat, line: Line, m: Machine<W, S>, m': Machine<W, S>)
    requires At(code, i, [line]) && m' == Effect(arch, line, m)
    requires line.MovReg? || line.LoadD? || line.ScaleIndex? || line.Alu? || line.CallFunction?
    ensures Reaches(arch, code, i, 1, m, m')
  {
    assert [line] + [] == [line];
    AtLine(code, i, line, []);
    hide Run;
    LastLineReaches(arch, code, i, line, m, m');
  }

  function Effect<W, S>(arch: Arch<W, S>, line: Line, m: Machine<W, S>): Machine<W, S> {
    match line
    case MovReg(rd, rs) => Put(m, rd, Get(arch, m.regs, rs))
    case LoadD(rd, rs) => Put(m, rd, arch.read(m.store, Get(arch, m.regs, rs)))
    case ScaleIndex => Put(m, R2, arch.alu(SLL, Get(arch, m.regs, R2), arch.constant(3)))
    case Alu(op) => Put(m, R1, arch.alu(op, Get(arch, m.regs, R1), Get(arch, m.regs, R2)))
    case CallFunction(f) => AfterCall(arch, f, m)
    case _ => m
  }

  lemma {:induction false} IndexRuns<W, S>(arch: Arch<W, S>, code: seq<Line>, i: nat, e: Expr, target: Reg, c: nat,
          m: Machine<W, S>)
    requires e.Index? && Runs(e) && At(code, i, GenIndex(e.base, e.index, target, c).lines)
    ensures Reaches(arch, code, i, |GenIndex(e.base, e.index, target, c).lines|, m, After(arch, e, target, m))
    decreases e, 0
  {
    hide Step; hide Run; hide GenExpression; hide At; hide LoadElement; hide Element; hide Reaches;
    var base := GenExpression(e.base, R1, c);
    var index := GenExpression(e.index, R2, base.next);
    var tail := LoadElement(target);
    var i1, i2 := i + |base.lines|, i + |base.lines| + |index.lines|;
    AtSplit(code, i, base.lines, index.lines + tail);
    AtSplit(code, i1, index.lines, tail);
    var m1 := After(arch, e.base, R1, m);
    var m2 := After(arch, e.index, R2, m1);
    CodeRuns(arch, code, i, e.base, R1, c, m);
    CodeRuns(arch, code, i1, e.index, R2, base.next, m1);
    ElementRuns(arch, code, i2, target, m2);
    ReachesBoth(arch, code, i1, |index.lines|, |tail|, m1, m2, After(arch, e, target, m));
    ReachesBoth(arch, code, i, |base.lines|, |index.lines| + |tail|, m, m1, After(arch, e, target, m));
  }

  /** The address is the base plus the index shifted left by three. */
  lemma ElementRuns<W, S>(arch: Arch<W, S>, code: seq<Line>, i: nat, target: Reg, m: Machine<W, S>)
    requires At(code, i, LoadElement(target))
    ensures Reaches(arch, code, i, |LoadElement(target)|, m, Element(arch, target, m))
  {
    hide Run; hide At; hide Reaches; hide Step; hide Set; hide Get;
    var add, load := Alu(ADD), LoadD(target, R1);
    assert [add, load] == [add] + [load];
    AtSplit(code, i, [ScaleIndex], [add, load]);
    AtSplit(code, i + 1, [add], [load]);
    var m1 := Effect(arch, ScaleIndex, m);
    var m2 := Effect(arch, add, m1);
    OneLine(arch, code, i, ScaleIndex, m, m1);
    OneLine(arch, code, i + 1, add, m1, m2);
    OneLine(arch, code, i + 2, load, m2, Element(arch, target, m));
    ReachesBoth(arch, code, i + 1, 1, 1, m1, m2, Element(arch, target, m));
    ReachesBoth(arch, code, i, 1, 2, m, m1, Element(arch, target, m));
  }

  lemma {:induction false} CallRuns<W, S>(arch: Arch<W, S>, code: seq<Line>, i: nat, e: Expr, target: Reg, c: nat,
          m: Machine<W, S>)
    requires e.Call? && Runs(e) && At(code, i, GenExpression(e, target, c).lines)
    ensures Reaches(arch, code, i, |GenExpression(e, target, c).lines|, m, After(arch, e, target, m))
    decreases e, 0
  {
    hide Run; hide At; hide Reaches; hide Step; hide AfterCall; hide MoveResult;
    var loaded := GenArguments(e.args, R1, c).lines;
    var tail := MoveResult(target);
    AtSplit(code, i, loaded, [CallFunction(e.callee)] + tail);
    AtSplit(code, i + |loaded|, [CallFunction(e.callee)], tail);
    var m1 := AfterArguments(arch, e.args, R1, m);
    var m2 := AfterCall(arch, e.callee, m1);
    ArgumentsRun(arch, code, i, e.args, R1, c, m);
    OneLine(arch, code, i + |loaded|, CallFunction(e.callee), m1, m2);
    MoveReaches(arch, code, i + |loaded| + 1, target, m2);
    ReachesBoth(arch, code, i + |loaded|, 1, |tail|, m1, m2, After(arch, e, target, m));
    ReachesBoth(arch, code, i, |loaded|, 1 + |tail|, m, m1, After(arch, e, target, m));
  }

  lemma MoveReaches<W, S>(arch: Arch<W, S>, code: seq<Line>, i: nat, target: Reg, m: Machine<W, S>)
    requires At(code, i, MoveResult(target))
    ensures Reaches(arch, code, i, |MoveResult(target)|, m, Moved(arch, target, m))
  {
    hide Run; hide At; hide Step;
    MoveRuns(arch, code, i, target, m);
  }

  lemma {:induction false} ArgumentsRun<W, S>(arch: Arch<W, S>, code: seq<Line>, i: nat, args: seq<Expr>, r: Reg,
          c: nat, m: Machine<W, S>)
    requires (forall x | x in args :: Runs(x)) && At(code, i, GenArguments(args, r, c).lines)
    ensures Reaches(arch, code, i, |GenArguments(args, r, c).lines|, m, AfterArguments(arch, args, r, m))
    decreases args
  {
    if args != [] {
      hide Run; hide At; hide Reaches; hide Step; hide GenExpression; hide After;
      var first := ArgumentsSplit(code, i, args, r, c);
      var m1 := After(arch, args[0], r, m);
      hide GenArguments; hide AfterArguments; hide Runs;
      CodeRuns(arch, code, i, args[0], r, c, m);
      ArgumentsRun(arch, code, i + |first.lines|, args[1..], r + 1, first.next, m1);
      ArgumentsJoin(arch, code, i, args, r, c, m);
    }
  }

  lemma ArgumentsSplit(code: seq<Line>, i: nat, args: seq<Expr>, r: Reg, c: nat) returns (first: Emitted)
    requires args != [] && At(code, i, GenArguments(args, r, c).lines)
    ensures first == GenExpression(args[0], r, c)
    ensures At(code, i, first.lines) && At(code, i + |first.lines|, GenArguments(args[1..], r + 1, first.next).lines)
  {
    hide At; hide GenExpression;
    first := GenExpression(args[0], r, c);
    AtSplit(code, i, first.lines, GenArguments(args[1..], r + 1, first.next).lines);
  }

  lemma ArgumentsJoin<W, S>(arch: Arch<W, S>, code: seq<Line>, i: nat, args: seq<Expr>, r: Reg, c: nat,
                            m: Machine<W, S>)
    requires args != [] && forall x | x in args :: Runs(x)
    requires var first := GenExpression(args[0], r, c);
      var m1 := After(arch, args[0], r, m);
      Reaches(arch, code, i, |first.lines|, m, m1)
      && Reaches(arch, code, i + |first.lines|, |GenArguments(args[1..], r + 1, first.next).lines|, m1,
                 AfterArguments(arch, args[1..], r + 1, m1))
    ensures Reaches(arch, code, i, |GenArguments(args, r, c).lines|, m, AfterArguments(arch, args, r, m))
  {
    hide Run; hide Reaches; hide GenExpression; hide After; hide Runs;
    var first := GenExpression(args[0], r, c);
    var m1 := After(arch, args[0], r, m);
    ReachesBoth(arch, code, i, |first.lines|, |GenArguments(args[1..], r + 1, first.next).lines|, m, m1,
                AfterArguments(arch, args[1..], r + 1, m1));
  }
}
