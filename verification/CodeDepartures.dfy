/**
  Statements and operators that leave no code, or no effect, behind.
 */
module CodeDepartures {
  import opened Ast
  import opened CodeGen
  import opened CodeSemantics
  import opened CodeTheorems
  import opened CodeConditions
  import opened CodeSimulation

  /** Expression statements other than inline assembly, jumps, bare declarations, and blocks of these. */
  predicate Silent(s: Stmt)
    decreases s
  {
    match s
    case ExprStmt(e) => !e.Asm?
    case Break => true
    case Continue => true
    case Empty => true
    case VariableDecl(_, _, init, _, _) => init.None?
    case FunctionDef(_, _, _, body) => body.None?
    case Block(ss) => forall x | x in ss :: Silent(x)
    case _ => false
  }

  /** A statement emits no code exactly when it is silent: assignments, `break` and `continue` are. */
  lemma {:induction false} SilentExactlyWhen(s: Stmt, c: nat)
    ensures GenStatement(s, c).lines == [] <==> Silent(s)
    decreases s, 1
  {
    match s
    case Block(ss) => SilentListExactlyWhen(ss, c);
    case While(cond, b) => assert GenLoop(Some(cond), b, None, c, c + 2).lines[0] == LabelDef(c);
    case For(i, cond, n, b) =>
      var init := GenOption(i, c + 2);
      assert GenLoop(cond, b, n, c, init.next).lines[0] == LabelDef(c);
    case DoWhile(b, cond) => assert GenDo(b, cond, c).lines[0] == LabelDef(c);
    case If(_, _, _) =>
      var tail := IfParts(s, c);
    case _ =>
  }

  lemma {:induction false} SilentListExactlyWhen(ss: seq<Stmt>, c: nat)
    ensures GenStatements(ss, c).lines == [] <==> forall x | x in ss :: Silent(x)
    decreases ss, 0
  {
    if ss != [] {
      SilentExactlyWhen(ss[0], c);
      SilentListExactlyWhen(ss[1..], GenStatement(ss[0], c).next);
      assert forall x | x in ss :: x == ss[0] || x in ss[1..];
    }
  }

  /** So a function made of assignments returns after its prologue with the machine as it was. */
  lemma SilentBodyDoesNothing<W, S>(arch: Arch<W, S>, name: string, s: Stmt, c: nat, m: Machine<W, S>)
    requires Silent(s)
    ensures Run(arch, Prologue(name) + BodyCode(s, c), Running(0, m), 5) == Returned(m)
  {
    hide Run; hide GenStatement; hide Silent;
    var code := Prologue(name) + BodyCode(s, c);
    SilentExactlyWhen(s, c);
    assert BodyCode(s, c) == [Ret];
    assert code[..4] == Prologue(name);
    PrologueRuns(arch, code, name, m);
    ReturnLine(arch, code, 4, m);
    RunAdd(arch, code, Running(0, m), 4, 1);
  }

  // ---- unary operators ----

  /** The expression without its unary operators. */
  function Bare(e: Expr): (r: Expr)
    requires Plain(e)
    ensures Plain(r)
    decreases e
  {
    if IsLeaf(e) then e
    else if e.Unary? then Bare(e.operand)
    else Binary(e.op, Bare(e.left), Bare(e.right))
  }

  /** Unary operators, prefix or postfix, are dropped wherever they stand: in values and in conditions. */
  lemma {:induction false} UnaryOperatorsAreDropped(e: Expr, target: Reg, c: nat)
    requires Plain(e)
    ensures GenExpression(e, target, c) == GenExpression(Bare(e), target, c)
    decreases e
  {
    if e.Unary? {
      UnaryOperatorsAreDropped(e.operand, target, c);
    } else if e.Binary? {
      UnaryOperatorsAreDropped(e.left, R1, c);
      UnaryOperatorsAreDropped(e.right, R2, GenExpression(e.left, R1, c).next);
    }
  }

  /** So an expression is computed as its bare form is; with a unary operator in it, that is wrong. */
  lemma BareFormIsComputed(e: Expr)
    requires Plain(e)
    ensures CodeValue(Free, e, ()) == CodeValue(Free, Bare(e), ())
    ensures Bare(e) != e ==> CodeValue(Free, e, ()) != Eval(Free, e, ())
  {
    BareValue(e);
    ComputesExactlyWhen(e);
    if Arithmetic(e) { BareIsItself(e); }
  }

  lemma {:induction false} BareValue(e: Expr)
    requires Plain(e)
    ensures (IsBare(Bare(e)) <==> IsBare(e)) && CodeValue(Free, Bare(e), ()) == CodeValue(Free, e, ())
    decreases e
  {
    if e.Unary? {
      BareValue(e.operand);
    } else if e.Binary? {
      BareValue(e.left);
      BareValue(e.right);
    }
  }

  lemma {:induction false} BareIsItself(e: Expr)
    requires Arithmetic(e)
    ensures Bare(e) == e
    decreases e
  {
    if e.Binary? {
      BareIsItself(e.left);
      BareIsItself(e.right);
    }
  }

  /** Conditions lose them too, unless they keep a binary operation from being one. */
  lemma ConditionsLoseUnaryOperators(e: Expr, exit: nat, invert: bool, c: nat)
    requires Plain(e) && (Bare(e).Binary? ==> e.Binary?)
    ensures GenCondition(e, exit, invert, c) == GenCondition(Bare(e), exit, invert, c)
  {
    hide GenExpression;
    if e.Binary? {
      UnaryOperatorsAreDropped(e.left, R1, c);
      UnaryOperatorsAreDropped(e.right, R2, GenExpression(e.left, R1, c).next);
    } else {
      UnaryOperatorsAreDropped(e, R1, c);
    }
  }

  /** If `x` is no binary operation, `!x` is right on exactly the machines and stores on which `x` is wrong. */
  lemma NegationRightExactlyWhen<W, S>(arch: Arch<W, S>, x: Expr, st: S)
    requires Plain(x) && !x.Binary?
    ensures var c := Unary(EXCLAM, x, true);
      CodeTruth(arch, c, st) == Truth(arch, c, st) <==> CodeTruth(arch, x, st) != Truth(arch, x, st)
  {
  }

  /** `!x` over a constant or variable always branches as `x` should: it is wrong every time. */
  lemma NegatedLeafIsWrong<W, S>(arch: Arch<W, S>, code: seq<Line>, i: nat, x: Expr, exit: nat, n: nat,
                                 m: Machine<W, S>)
    requires IsLeaf(x) && At(code, i, GenCondition(Unary(EXCLAM, x, true), exit, false, n).lines) && 2 < |m.regs|
    ensures Branches(arch, code, i, Unary(EXCLAM, x, true), exit, n, m, !Truth(arch, Unary(EXCLAM, x, true), m.store))
  {
    hide Branches; hide GenCondition; hide At;
    ConditionCodeRuns(arch, code, i, Unary(EXCLAM, x, true), exit, n, m);
    NegationRightExactlyWhen(arch, x, m.store);
    assert CodeTruth(arch, x, m.store) == Truth(arch, x, m.store);
  }

  // ---- initialisers ----

  /**
    An initialiser is computed and dropped: the variable is loaded over it, and no store happens.
    Its value is there all the same exactly when the variable held it before.
   */
  lemma InitializerIsNotStored<W, S>(arch: Arch<W, S>, code: seq<Line>, i: nat, s: Stmt, c: nat, m: Machine<W, S>)
      returns (m': Machine<W, S>)
    requires s.VariableDecl? && s.initializer.Some? && Plain(s.initializer.value) && 2 < |m.regs|
    requires At(code, i, GenStatement(s, c).lines)
    ensures var k := |GenStatement(s, c).lines|; Run(arch, code, Running(i, m), k) == Running(i + k, m')
    ensures m'.store == m.store && |m'.regs| == |m.regs| && m'.regs[R1] == arch.load(m.store, s.name)
    ensures var value := Eval(arch, s.initializer.value, m.store);
      arch.load(m'.store, s.name) == value == m'.regs[R1] <==> arch.load(m.store, s.name) == value
  {
    hide Run; hide GenExpression; hide RegsAfter;
    var value := GenExpression(s.initializer.value, R1, c);
    var load := MovVar(R1, s.name);
    AtSplit(code, i, value.lines, [load]);
    ExpressionRuns(arch, code, i, s.initializer.value, R1, c, m);
    var m1 := m.(regs := RegsAfter(arch, s.initializer.value, R1, m.regs, m.store));
    assert [load] == [load] + [];
    AtLine(code, i + |value.lines|, load, []);
    RunOne(arch, code, Running(i + |value.lines|, m1));
    RunAdd(arch, code, Running(i, m), |value.lines|, 1);
    m' := m1.(regs := Set(m1.regs, R1, arch.load(m.store, s.name)));
  }

  /** On every machine that is so only for a variable initialised with itself. */
  lemma InitializerHeldExactlyWhen(name: string, init: Expr)
    requires Plain(init)
    ensures (forall arch: Arch<Expr, ()> :: arch.load((), name) == Eval(arch, init, ())) <==> init == Variable(name)
  {
    FreeEval(init);
    assert Free.load((), name) == Variable(name);
  }
}
