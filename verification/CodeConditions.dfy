/**
  The code of conditions: what it really tests, for every condition, and for which conditions
  that is their truth.
 */
module CodeConditions {
  import opened Ast
  import opened CodeGen
  import opened CodeSemantics
  import opened CodeTheorems

  // ---- what the code tests ----

  /** The left value compared: a right side that is not bare has overwritten it with its own. */
  function LeftCompared<W, S>(arch: Arch<W, S>, c: Expr, st: S): W
    requires IsComparisonOf(c)
  {
    if IsBare(c.right) then CodeValue(arch, c.left, st) else CodeValue(arch, c.right, st)
  }

  /** The truth the code acts on: a comparison, nothing for other binary operators, a test for zero. */
  predicate CodeTruth<W, S>(arch: Arch<W, S>, c: Expr, st: S)
    requires Plain(c)
  {
    if IsComparisonOf(c) then Compare(arch, c.op, LeftCompared(arch, c, st), CodeValue(arch, c.right, st))
    else c.Binary? || !arch.equal(CodeValue(arch, c, st), arch.zero)
  }

  /** The registers when the branch is reached. */
  function Tested<W, S>(arch: Arch<W, S>, c: Expr, regs: seq<W>, st: S): (r: seq<W>)
    requires Plain(c)
    ensures |r| == |regs|
  {
    if c.Binary? then RegsAfter(arch, c.right, R2, RegsAfter(arch, c.left, R1, regs, st), st)
    else RegsAfter(arch, c, R1, regs, st)
  }

  /** From `i` on the code of `c` runs to its end if `goesOn`, and to the label if not. */
  ghost predicate Branches<W, S>(arch: Arch<W, S>, code: seq<Line>, i: nat, c: Expr, exit: nat, n: nat,
          m: Machine<W, S>, goesOn: bool)
    requires Plain(c)
  {
    var k := |GenCondition(c, exit, false, n).lines|;
    var m' := m.(regs := Tested(arch, c, m.regs, m.store));
    Run(arch, code, Running(i, m), k) == if goesOn then Running(i + k, m') else GoTo(code, exit, m')
  }

  /** Every condition goes by its code truth. */
  lemma ConditionCodeRuns<W, S>(arch: Arch<W, S>, code: seq<Line>, i: nat, c: Expr, exit: nat, n: nat,
                                m: Machine<W, S>)
    requires Plain(c) && At(code, i, GenCondition(c, exit, false, n).lines) && 2 < |m.regs|
    ensures Branches(arch, code, i, c, exit, n, m, CodeTruth(arch, c, m.store))
  {
    hide Run; hide Step; hide GenCondition; hide At; hide CodeValue; hide Compare; hide Branches;
    if IsComparisonOf(c) {
      ComparisonRuns(arch, code, i, c, exit, n, m);
    } else if c.Binary? {
      OtherConditionsFallThrough(arch, code, i, c, exit, n, m);
    } else {
      ValueConditionRuns(arch, code, i, c, exit, n, m);
    }
  }

  /** Any comparison, whatever its sides. */
  lemma ComparisonRuns<W, S>(arch: Arch<W, S>, code: seq<Line>, i: nat, c: Expr, exit: nat, n: nat,
                             m: Machine<W, S>)
    requires IsComparisonOf(c) && At(code, i, GenCondition(c, exit, false, n).lines) && 2 < |m.regs|
    ensures Branches(arch, code, i, c, exit, n, m, CodeTruth(arch, c, m.store))
  {
    hide Run; hide Step; hide GenExpression; hide At; hide CodeTruth; hide GoTo;
    var branch := [Branch(BranchOf(c.op, false).value, exit)];
    SidesRun(arch, code, i, c, n, branch, m);
    var left := GenExpression(c.left, R1, n);
    var k := |left.lines| + |GenExpression(c.right, R2, left.next).lines|;
    var m' := m.(regs := Tested(arch, c, m.regs, m.store));
    ComparedRegisters(arch, c, m.regs, m.store);
    BranchRuns(arch, code, i + k, c, exit, m');
    RunAdd(arch, code, Running(i, m), k, 1);
  }

  /** The code of both sides, in front of what follows it. */
  lemma SidesRun<W, S>(arch: Arch<W, S>, code: seq<Line>, i: nat, c: Expr, n: nat, tail: seq<Line>, m: Machine<W, S>)
    requires Plain(c) && c.Binary?
    requires var left := GenExpression(c.left, R1, n);
      At(code, i, left.lines + (GenExpression(c.right, R2, left.next).lines + tail))
    ensures var left := GenExpression(c.left, R1, n);
      var k := |left.lines| + |GenExpression(c.right, R2, left.next).lines|;
      Run(arch, code, Running(i, m), k) == Running(i + k, m.(regs := Tested(arch, c, m.regs, m.store)))
      && At(code, i + k, tail)
  {
    hide Run; hide Step; hide GenExpression; hide At; hide RegsAfter;
    var left := GenExpression(c.left, R1, n);
    var right := GenExpression(c.right, R2, left.next);
    AtSplit(code, i, left.lines, right.lines + tail);
    AtSplit(code, i + |left.lines|, right.lines, tail);
    var m1 := m.(regs := RegsAfter(arch, c.left, R1, m.regs, m.store));
    ExpressionRuns(arch, code, i, c.left, R1, n, m);
    ExpressionRuns(arch, code, i + |left.lines|, c.right, R2, left.next, m1);
    RunAdd(arch, code, Running(i, m), |left.lines|, |right.lines|);
  }

  /** The two registers compared. */
  lemma ComparedRegisters<W, S>(arch: Arch<W, S>, c: Expr, regs: seq<W>, st: S)
    requires IsComparisonOf(c) && 2 < |regs|
    ensures var r := Tested(arch, c, regs, st);
      r[R1] == LeftCompared(arch, c, st) && r[R2] == CodeValue(arch, c.right, st)
  {
    hide RegsAfter; hide CodeValue;
    var left := RegsAfter(arch, c.left, R1, regs, st);
    RegistersAfter(arch, c.left, R1, regs, st);
    RegistersAfter(arch, c.right, R2, left, st);
    if !IsBare(c.right) { RightOverwrites(arch, c.right, left, st); }
  }

  lemma BranchRuns<W, S>(arch: Arch<W, S>, code: seq<Line>, j: nat, c: Expr, exit: nat, m: Machine<W, S>)
    requires IsComparisonOf(c) && 2 < |m.regs|
    requires At(code, j, [Branch(BranchOf(c.op, false).value, exit)])
    requires m.regs[R1] == LeftCompared(arch, c, m.store) && m.regs[R2] == CodeValue(arch, c.right, m.store)
    ensures Run(arch, code, Running(j, m), 1) ==
      (if CodeTruth(arch, c, m.store) then Running(j + 1, m) else GoTo(code, exit, m))
  {
    hide Run; hide CodeValue;
    var b := Branch(BranchOf(c.op, false).value, exit);
    assert [b] == [b] + [];
    AtLine(code, j, b, []);
    RunOne(arch, code, Running(j, m));
  }

  /**
    A condition that is a binary operation without a branch, such as `a && b`, `a < b || c` or
    `a + b`, is always fallen through: the then part runs whatever the values are.
   */
  lemma OtherConditionsFallThrough<W, S>(arch: Arch<W, S>, code: seq<Line>, i: nat, c: Expr, exit: nat, n: nat,
          m: Machine<W, S>)
    requires Plain(c) && c.Binary? && !IsComparisonOf(c) && At(code, i, GenCondition(c, exit, false, n).lines)
    ensures Branches(arch, code, i, c, exit, n, m, true)
  {
    hide Run; hide Step; hide GenExpression; hide At;
    SidesRun(arch, code, i, c, n, [], m);
  }

  /** Any other condition is tested for zero. */
  lemma ValueConditionRuns<W, S>(arch: Arch<W, S>, code: seq<Line>, i: nat, c: Expr, exit: nat, n: nat,
                                 m: Machine<W, S>)
    requires Plain(c) && !c.Binary? && At(code, i, GenCondition(c, exit, false, n).lines) && 2 < |m.regs|
    ensures Branches(arch, code, i, c, exit, n, m, CodeTruth(arch, c, m.store))
  {
    hide Run; hide GenExpression; hide RegsAfter; hide CodeValue;
    var value := GenExpression(c, R1, n);
    AtSplit(code, i, value.lines, [BranchZero(BEQ, exit)]);
    ExpressionRuns(arch, code, i, c, R1, n, m);
    RegistersAfter(arch, c, R1, m.regs, m.store);
    var m' := m.(regs := RegsAfter(arch, c, R1, m.regs, m.store));
    var j := i + |value.lines|;
    assert [BranchZero(BEQ, exit)] == [BranchZero(BEQ, exit)] + [];
    AtLine(code, j, BranchZero(BEQ, exit), []);
    RunOne(arch, code, Running(j, m'));
    RunAdd(arch, code, Running(i, m), |value.lines|, 1);
  }

  /** With the sense inverted the code goes to the label when a comparison holds, and on when it fails. */
  lemma InvertedComparisonRuns<W, S>(arch: Arch<W, S>, code: seq<Line>, i: nat, c: Expr, exit: nat, n: nat,
                                     m: Machine<W, S>)
    requires IsComparisonOf(c) && At(code, i, GenCondition(c, exit, true, n).lines) && 2 < |m.regs|
    ensures var k, m' := |GenCondition(c, exit, true, n).lines|, m.(regs := Tested(arch, c, m.regs, m.store));
      Run(arch, code, Running(i, m), k) ==
        if CodeTruth(arch, c, m.store) then GoTo(code, exit, m') else Running(i + k, m')
  {
    hide Run; hide Step; hide GenExpression; hide At; hide CodeTruth; hide GoTo;
    var branch := [Branch(BranchOf(c.op, true).value, exit)];
    SidesRun(arch, code, i, c, n, branch, m);
    var left := GenExpression(c.left, R1, n);
    var k := |left.lines| + |GenExpression(c.right, R2, left.next).lines|;
    var m' := m.(regs := Tested(arch, c, m.regs, m.store));
    ComparedRegisters(arch, c, m.regs, m.store);
    InvertedBranchRuns(arch, code, i + k, c, exit, m');
    RunAdd(arch, code, Running(i, m), k, 1);
  }

  lemma InvertedBranchRuns<W, S>(arch: Arch<W, S>, code: seq<Line>, j: nat, c: Expr, exit: nat, m: Machine<W, S>)
    requires IsComparisonOf(c) && 2 < |m.regs|
    requires At(code, j, [Branch(BranchOf(c.op, true).value, exit)])
    requires m.regs[R1] == LeftCompared(arch, c, m.store) && m.regs[R2] == CodeValue(arch, c.right, m.store)
    ensures Run(arch, code, Running(j, m), 1) ==
      (if CodeTruth(arch, c, m.store) then GoTo(code, exit, m) else Running(j + 1, m))
  {
    hide Run; hide CodeValue;
    var b := Branch(BranchOf(c.op, true).value, exit);
    assert [b] == [b] + [];
    AtLine(code, j, b, []);
    RunOne(arch, code, Running(j, m));
  }

  /** And likewise for values tested for zero. */
  lemma InvertedValueRuns<W, S>(arch: Arch<W, S>, code: seq<Line>, i: nat, c: Expr, exit: nat, n: nat,
                                m: Machine<W, S>)
    requires Plain(c) && !c.Binary? && At(code, i, GenCondition(c, exit, true, n).lines) && 2 < |m.regs|
    ensures var k, m' := |GenCondition(c, exit, true, n).lines|, m.(regs := Tested(arch, c, m.regs, m.store));
      Run(arch, code, Running(i, m), k) ==
        if CodeTruth(arch, c, m.store) then GoTo(code, exit, m') else Running(i + k, m')
  {
    hide Run; hide GenExpression; hide RegsAfter; hide CodeValue;
    var value := GenExpression(c, R1, n);
    AtSplit(code, i, value.lines, [BranchZero(BNE, exit)]);
    ExpressionRuns(arch, code, i, c, R1, n, m);
    RegistersAfter(arch, c, R1, m.regs, m.store);
    var m' := m.(regs := RegsAfter(arch, c, R1, m.regs, m.store));
    var j := i + |value.lines|;
    assert [BranchZero(BNE, exit)] == [BranchZero(BNE, exit)] + [];
    AtLine(code, j, BranchZero(BNE, exit), []);
    RunOne(arch, code, Running(j, m'));
    RunAdd(arch, code, Running(i, m), |value.lines|, 1);
  }

  /** The code of a supported condition falls through when it is true and goes to the label when not. */
  lemma ConditionRuns<W, S>(arch: Arch<W, S>, code: seq<Line>, i: nat, c: Expr, exit: nat, n: nat,
                            m: Machine<W, S>) returns (m': Machine<W, S>)
    requires SupportedCondition(c) && At(code, i, GenCondition(c, exit, false, n).lines) && 2 < |m.regs|
    ensures m'.store == m.store && |m'.regs| == |m.regs|
    ensures var k := |GenCondition(c, exit, false, n).lines|;
      1 <= k && Run(arch, code, Running(i, m), k) ==
        (if Truth(arch, c, m.store) then Running(i + k, m') else GoTo(code, exit, m'))
  {
    hide Run; hide Step; hide At;
    if !IsLeaf(c) { RightLeafBranches(arch, c, m.store); }
    ConditionCodeRuns(arch, code, i, c, exit, n, m);
    m' := m.(regs := Tested(arch, c, m.regs, m.store));
  }

  // ---- conditions that work ----

  /** Wherever the code stands, it goes on when the condition is true and to the label when not. */
  ghost predicate Works<W(!new), S(!new)>(arch: Arch<W, S>, c: Expr)
    requires Plain(c)
  {
    forall code, i, exit, n, m: Machine<W, S> | At(code, i, GenCondition(c, exit, false, n).lines) && 2 < |m.regs| ::
      Branches(arch, code, i, c, exit, n, m, Truth(arch, c, m.store))
  }

  /** That is, when what the code tests is the truth. */
  lemma WorksExactlyWhen<W(!new), S(!new)>(arch: Arch<W, S>, c: Expr)
    requires Plain(c)
    ensures Works(arch, c) <==> forall st: S :: CodeTruth(arch, c, st) == Truth(arch, c, st)
  {
    hide Branches; hide Truth; hide CodeTruth; hide GenCondition; hide At;
    if Works(arch, c) {
      forall st: S ensures CodeTruth(arch, c, st) == Truth(arch, c, st) {
        var code := GenCondition(c, 0, false, 0).lines;
        var m := Machine([arch.zero, arch.zero, arch.zero], st);
        AtItself(code);
        ConditionCodeRuns(arch, code, 0, c, 0, 0, m);
        assert Branches(arch, code, 0, c, 0, 0, m, Truth(arch, c, m.store));
        GoesOneWay(arch, code, c, m);
      }
    } else {
      var code, i, exit, n, m: Machine<W, S> :| At(code, i, GenCondition(c, exit, false, n).lines) && 2 < |m.regs|
        && !Branches(arch, code, i, c, exit, n, m, Truth(arch, c, m.store));
      ConditionCodeRuns(arch, code, i, c, exit, n, m);
    }
  }

  lemma AtItself(code: seq<Line>)
    ensures At(code, 0, code)
  {
  }

  /** With nothing behind the code, the label is not where it ends. */
  lemma GoesOneWay<W, S>(arch: Arch<W, S>, code: seq<Line>, c: Expr, m: Machine<W, S>)
    requires Plain(c) && code == GenCondition(c, 0, false, 0).lines
    ensures !(Branches(arch, code, 0, c, 0, 0, m, true) && Branches(arch, code, 0, c, 0, 0, m, false))
  {
    hide Run; hide GenCondition; hide Tested;
  }

  // ---- when the branch of a comparison is right ----

  /** Both sides arithmetic, the left one computed right, the right one a leaf or a repetition of it. */
  predicate RightComparison(c: Expr)
    requires IsComparisonOf(c)
  {
    Arithmetic(c.left) && Arithmetic(c.right) && RightLeaf(c)
  }

  lemma RightLeafBranches<W, S>(arch: Arch<W, S>, c: Expr, st: S)
    requires IsComparisonOf(c) && RightComparison(c)
    ensures CodeTruth(arch, c, st) == Truth(arch, c, st)
  {
    BareArithmetic(c.right);
    RightLeafComputes(arch, c.left, st);
    if !IsLeaf(c.right) { RightLeafComputes(arch, c.right, st); }
  }

  /** Whatever operators, equality and order may mean, the branch follows the comparison for exactly these. */
  lemma BranchRightExactlyWhen(c: Expr)
    requires IsComparisonOf(c)
    ensures (forall arch: Arch<Expr, ()> :: Works(arch, c)) <==> RightComparison(c)
  {
    hide Works; hide Truth; hide CodeTruth;
    if RightComparison(c) {
      forall arch: Arch<Expr, ()> ensures Works(arch, c) {
        forall st: () ensures CodeTruth(arch, c, st) == Truth(arch, c, st) { RightLeafBranches(arch, c, st); }
        WorksExactlyWhen(arch, c);
      }
    } else {
      var arch := WrongBranch(c);
      WorksExactlyWhen(arch, c);
    }
  }

  lemma WrongBranch(c: Expr) returns (arch: Arch<Expr, ()>)
    requires IsComparisonOf(c) && !RightComparison(c)
    ensures CodeTruth(arch, c, ()) != Truth(arch, c, ())
  {
    // the one pair of values the operator tells from all others is that of the two sides
    var l, r := c.left, c.right;
    arch := Free.(equal := (a, b) => a == l && b == r,
                  less := (a, b) => if c.op == LT || c.op == GE then a == l && b == r else a == r && b == l);
    WithOrder(arch, Free, l);
    WithOrder(arch, Free, r);
    FreeEval(l);
    FreeEval(r);
    NotCompared(c);
  }

  /** In the free arithmetic the values compared are then not those of the two sides. */
  lemma NotCompared(c: Expr)
    requires IsComparisonOf(c) && !RightComparison(c)
    ensures LeftCompared(Free, c, ()) != c.left || CodeValue(Free, c.right, ()) != c.right
  {
    hide CodeValue;
    ComputesItself(c.left);
    ComputesItself(c.right);
    if Arithmetic(c.right) { BareArithmetic(c.right); }
  }

  lemma ComputesItself(e: Expr)
    requires Plain(e)
    ensures CodeValue(Free, e, ()) == e <==> Arithmetic(e) && RightLeaf(e)
  {
    FreeEval(e);
    ComputesExactlyWhen(e);
  }

  /** The same meaning of everything that computes values. */
  ghost predicate SameOperators(arch: Arch<Expr, ()>, base: Arch<Expr, ()>) {
    arch.constant == base.constant && arch.load == base.load && arch.alu == base.alu && arch.unary == base.unary
    && arch.other == base.other
  }

  lemma {:induction false} WithOrder(arch: Arch<Expr, ()>, base: Arch<Expr, ()>, e: Expr)
    requires Plain(e) && SameOperators(arch, base)
    ensures Eval(arch, e, ()) == Eval(base, e, ()) && CodeValue(arch, e, ()) == CodeValue(base, e, ())
    decreases e
  {
    if IsLeaf(e) {
    } else if e.Unary? {
      WithOrder(arch, base, e.operand);
    } else {
      WithOrder(arch, base, e.left);
      WithOrder(arch, base, e.right);
    }
  }

  /** Equality is equality, and the order is a strict one. */
  ghost predicate Ordered<W(!new), S>(arch: Arch<W, S>) {
    && (forall a, b :: arch.equal(a, b) <==> a == b)
    && (forall a, b :: arch.less(a, b) ==> !arch.less(b, a))
    && (forall a, b, c :: arch.less(a, b) && arch.less(b, c) ==> arch.less(a, c))
  }

  /** The right side is a leaf behind a left side computed right, or repeats any left side. */
  predicate RightOrdered(c: Expr)
    requires IsComparisonOf(c)
  {
    c.left == c.right || (IsLeaf(c.right) && Arithmetic(c.left) && RightLeaf(c.left))
  }

  lemma OrderedBranches<W(!new), S>(arch: Arch<W, S>, c: Expr, st: S)
    requires IsComparisonOf(c) && RightOrdered(c) && Ordered(arch)
    ensures CodeTruth(arch, c, st) == Truth(arch, c, st)
  {
    if c.left != c.right { RightLeafComputes(arch, c.left, st); }
  }

  /** With a true equality and a strict order, the branch is right for exactly these comparisons. */
  lemma OrderedBranchRightExactlyWhen(c: Expr)
    requires IsComparisonOf(c)
    ensures (forall arch: Arch<Expr, ()> | Ordered(arch) :: Works(arch, c)) <==> RightOrdered(c)
  {
    hide Works; hide Truth; hide CodeTruth; hide Ordered;
    if RightOrdered(c) {
      forall arch: Arch<Expr, ()> | Ordered(arch) ensures Works(arch, c) {
        forall st: () ensures CodeTruth(arch, c, st) == Truth(arch, c, st) { OrderedBranches(arch, c, st); }
        WorksExactlyWhen(arch, c);
      }
    } else {
      var arch := WrongOrderedBranch(c);
      WorksExactlyWhen(arch, c);
    }
  }

  lemma WrongOrderedBranch(c: Expr) returns (arch: Arch<Expr, ()>)
    requires IsComparisonOf(c) && !RightOrdered(c)
    ensures Ordered(arch) && CodeTruth(arch, c, ()) != Truth(arch, c, ())
  {
    hide Truth; hide CodeTruth; hide Ordered; hide CodeValue;
    var l, r := c.left, c.right;
    ComputesItself(r);
    var same := LeftCompared(Free, c, ()) == CodeValue(Free, r, ());
    if same || (!IsLeaf(r) && c.op != EQEQ && c.op != NEQ) {
      arch := Telling(l, r, c.op);
      TellingIsWrong(c);
    } else if IsLeaf(r) {
      arch := Collapsing(l, r, c.op);
      CollapsingIsWrong(c);
    } else {
      arch := if Depth(l) < Depth(r) then Collapse(r, l) else Collapse(l, r);
      CollapseIsWrong(c);
    }
  }

  /** The free arithmetic, with `l` and `r` in the order that decides the operator. */
  function Telling(l: Expr, r: Expr, op: TokenKind): Arch<Expr, ()> {
    Free.(less := (a, b) => if op == LT || op == GE then a == l && b == r else a == r && b == l)
  }

  lemma TellingIsWrong(c: Expr)
    requires IsComparisonOf(c) && c.left != c.right
    requires LeftCompared(Free, c, ()) == CodeValue(Free, c.right, ())
      || (CodeValue(Free, c.right, ()) != c.right && c.op != EQEQ && c.op != NEQ)
    ensures var arch := Telling(c.left, c.right, c.op);
      Ordered(arch) && CodeTruth(arch, c, ()) != Truth(arch, c, ())
  {
    hide CodeValue;
    var arch := Telling(c.left, c.right, c.op);
    WithOrder(arch, Free, c.left);
    WithOrder(arch, Free, c.right);
    FreeEval(c.left);
    FreeEval(c.right);
  }

  /** The free arithmetic, but for one expression that has the value `v`. */
  function Collapse(e: Expr, v: Expr): Arch<Expr, ()> {
    Free.(alu := (o, a, b) => if Binary(TokenOf(o), a, b) == e then v else Binary(TokenOf(o), a, b),
          unary := (o, p, a) => if Unary(o, a, p) == e then v else Unary(o, a, p),
          other := (o, a, b) => if Binary(o, a, b) == e then v else Binary(o, a, b))
  }

  /** Every value but that of the leaf on one side of it. */
  function Collapsing(e: Expr, leaf: Expr, op: TokenKind): Arch<Expr, ()> {
    Collapse(e, leaf).(
      less := (a, b) => if op == LT || op == GE then a != leaf && b == leaf else a == leaf && b != leaf)
  }

  function Depth(e: Expr): nat
    decreases e
  {
    if e.Unary? then 1 + Depth(e.operand)
    else if !e.Binary? then 0
    else if Depth(e.left) < Depth(e.right) then 1 + Depth(e.right)
    else 1 + Depth(e.left)
  }

  /** The operators of the collapsed arithmetic. */
  lemma CollapsedAlu(e: Expr, v: Expr, op: AluOp, a: Expr, b: Expr)
    ensures var r := Binary(TokenOf(op), a, b);
      Free.alu(op, a, b) == r && Collapse(e, v).alu(op, a, b) == if r == e then v else r
  {
  }

  lemma CollapsedOther(e: Expr, v: Expr, op: TokenKind, prefix: bool, a: Expr, b: Expr)
    ensures Collapse(e, v).unary(op, prefix, a) == if Unary(op, a, prefix) == e then v else Unary(op, a, prefix)
    ensures Collapse(e, v).other(op, a, b) == if Binary(op, a, b) == e then v else Binary(op, a, b)
  {
  }

  lemma SameLeaf(e: Expr, v: Expr, s: Expr)
    requires IsLeaf(s)
    ensures Leaf(Collapse(e, v), s, ()) == s == Leaf(Free, s, ())
  {
  }

  /** Expressions no deeper than `e` keep their free values, all but `e` itself. */
  lemma {:induction false} OthersNotCollapsed(e: Expr, v: Expr, s: Expr)
    requires Plain(s) && Depth(s) <= Depth(e) && s != e
    ensures Eval(Collapse(e, v), s, ()) == s
    decreases s
  {
    hide Collapse; hide Leaf;
    if IsLeaf(s) {
      SameLeaf(e, v, s);
    } else if s.Unary? {
      OthersNotCollapsed(e, v, s.operand);
      CollapsedOther(e, v, s.uop, s.isPrefix, s.operand, s.operand);
    } else {
      OthersNotCollapsed(e, v, s.left);
      OthersNotCollapsed(e, v, s.right);
      if AluOf(s.op).Some? {
        CollapsedAlu(e, v, AluOf(s.op).value, s.left, s.right);
      } else {
        CollapsedOther(e, v, s.op, true, s.left, s.right);
      }
    }
  }

  lemma Collapsed(e: Expr, v: Expr)
    requires Plain(e) && !IsLeaf(e)
    ensures Eval(Collapse(e, v), e, ()) == v
  {
    if e.Unary? {
      OthersNotCollapsed(e, v, e.operand);
    } else {
      OthersNotCollapsed(e, v, e.left);
      OthersNotCollapsed(e, v, e.right);
      if AluOf(e.op).Some? { assert TokenOf(AluOf(e.op).value) == e.op; }
    }
  }

  /** Code makes nothing deeper. */
  lemma {:induction false} CodeIsNotDeeper(e: Expr)
    requires Plain(e)
    ensures Depth(CodeValue(Free, e, ())) <= Depth(e)
    decreases e
  {
    if IsLeaf(e) {
    } else if e.Unary? {
      CodeIsNotDeeper(e.operand);
    } else {
      CodeIsNotDeeper(e.left);
      CodeIsNotDeeper(e.right);
    }
  }

  /** So the code of an expression no deeper than `e` is not affected unless it computes `e`. */
  lemma {:induction false} CodeNotCollapsed(e: Expr, v: Expr, s: Expr)
    requires Plain(s) && Depth(s) <= Depth(e) && !IsLeaf(e)
    ensures CodeValue(Collapse(e, v), s, ()) == if CodeValue(Free, s, ()) == e then v else CodeValue(Free, s, ())
    decreases s
  {
    hide Collapse; hide IsBare; hide Leaf;
    if IsLeaf(s) {
      SameLeaf(e, v, s);
    } else if s.Unary? {
      CodeNotCollapsed(e, v, s.operand);
    } else {
      var l, r := CodeValue(Free, s.left, ()), CodeValue(Free, s.right, ());
      CodeIsNotDeeper(s.left);
      CodeIsNotDeeper(s.right);
      CodeNotCollapsed(e, v, s.left);
      CodeNotCollapsed(e, v, s.right);
      if AluOf(s.op).Some? { CollapsedAlu(e, v, AluOf(s.op).value, if IsBare(s.right) then l else r, r); }
    }
  }

  /** Two different sides, the right one under unary operators, that have one value and not one code value. */
  lemma CollapseIsWrong(c: Expr)
    requires IsComparisonOf(c) && c.left != c.right && !IsLeaf(c.right) && (c.op == EQEQ || c.op == NEQ)
    requires LeftCompared(Free, c, ()) != CodeValue(Free, c.right, ())
    ensures var arch := if Depth(c.left) < Depth(c.right) then Collapse(c.right, c.left) else Collapse(c.left, c.right);
      Ordered(arch) && CodeTruth(arch, c, ()) != Truth(arch, c, ())
  {
    hide CodeValue; hide Eval; hide Collapse; hide Depth; hide Arithmetic;
    var l, r := c.left, c.right;
    var e, o := if Depth(l) < Depth(r) then r else l, if Depth(l) < Depth(r) then l else r;
    LeafDepth(r);
    LeafDepth(e);
    Collapsed(e, o);
    OthersNotCollapsed(e, o, o);
    CodeNotCollapsed(e, o, l);
    CodeNotCollapsed(e, o, r);
    BareCode(r);
    CodeIsArithmetic(l);
    UnaryIsNotArithmetic(r);
    CollapseOrdered(e, o);
  }

  lemma LeafDepth(e: Expr)
    requires Plain(e)
    ensures Depth(e) == 0 <==> IsLeaf(e)
  {
  }

  lemma {:induction false} BareCode(e: Expr)
    requires Plain(e) && IsBare(e)
    ensures IsLeaf(CodeValue(Free, e, ()))
    decreases e
  {
    if e.Unary? { BareCode(e.operand); }
  }

  lemma UnaryIsNotArithmetic(e: Expr)
    requires IsBare(e) && !IsLeaf(e)
    ensures !Arithmetic(e)
  {
  }

  lemma CollapseOrdered(e: Expr, v: Expr)
    ensures Ordered(Collapse(e, v)) && Collapse(e, v).equal == Free.equal
  {
  }

  /** A left side that has the value of the leaf and another code value. */
  lemma CollapsingIsWrong(c: Expr)
    requires IsComparisonOf(c) && IsLeaf(c.right) && !(Arithmetic(c.left) && RightLeaf(c.left))
    requires LeftCompared(Free, c, ()) != CodeValue(Free, c.right, ())
    ensures var arch := Collapsing(c.left, c.right, c.op);
      Ordered(arch) && CodeTruth(arch, c, ()) != Truth(arch, c, ())
  {
    var e, leaf := c.left, c.right;
    var arch := Collapsing(e, leaf, c.op);
    assert !IsLeaf(e);
    hide CodeValue; hide Eval;
    WithOrder(arch, Collapse(e, leaf), e);
    WithOrder(arch, Collapse(e, leaf), leaf);
    Collapsed(e, leaf);
    OthersNotCollapsed(e, leaf, leaf);
    CodeNotCollapsed(e, leaf, e);
    CodeNotCollapsed(e, leaf, leaf);
    BareCode(leaf);
    ComputesItself(e);
    ComputesItself(leaf);
  }
}
