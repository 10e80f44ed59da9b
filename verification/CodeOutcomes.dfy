/**
  The exact class of conditions whose code is right, for every condition of operators over
  constants and variables: whatever the operators, equality and order mean, and for a true
  equality and a strict order.
 */
module CodeOutcomes {
  import opened Ast
  import opened CodeGen
  import opened CodeSemantics
  import opened CodeTheorems
  import opened CodeConditions

  // ---- answers that decide a condition ----

  /** The answer a machine gives on two values: whether the first is less, or whether they are equal. */
  datatype Fact = Fact(order: bool, a: Expr, b: Expr, holds: bool)

  /** Stands for the machine's zero; no expression with a value is one. */
  const ZERO := Asm("")

  /** The value of any tree; those without one count as zero. */
  function Value<W, S>(arch: Arch<W, S>, e: Expr, st: S): W
    decreases e
  {
    if IsLeaf(e) then Leaf(arch, e, st)
    else if e.Unary? then arch.unary(e.uop, e.isPrefix, Value(arch, e.operand, st))
    else if e.Binary? then
      if AluOf(e.op).Some? then arch.alu(AluOf(e.op).value, Value(arch, e.left, st), Value(arch, e.right, st))
      else arch.other(e.op, Value(arch, e.left, st), Value(arch, e.right, st))
    else arch.zero
  }

  lemma {:induction false} ValueIsEval<W, S>(arch: Arch<W, S>, e: Expr, st: S)
    requires Plain(e)
    ensures Value(arch, e, st) == Eval(arch, e, st)
    decreases e
  {
    if IsLeaf(e) {
    } else if e.Unary? {
      ValueIsEval(arch, e.operand, st);
    } else {
      ValueIsEval(arch, e.left, st);
      ValueIsEval(arch, e.right, st);
    }
  }

  predicate FactHolds<W, S>(arch: Arch<W, S>, f: Fact, st: S) {
    var x, y := Value(arch, f.a, st), Value(arch, f.b, st);
    (if f.order then arch.less(x, y) else arch.equal(x, y)) == f.holds
  }

  ghost predicate AllHold<W, S>(arch: Arch<W, S>, facts: set<Fact>, st: S) {
    forall f | f in facts :: FactHolds(arch, f, st)
  }

  predicate IsJunction(c: Expr) { c.Binary? && (c.op == ANDAND || c.op == OROR) }

  /** The answer that makes a single test come out as `truth`. */
  function Answer(c: Expr, truth: bool): Fact {
    if !(c.Binary? && IsComparison(c.op)) then Fact(false, c, ZERO, !truth)
    else if c.op == EQEQ || c.op == NEQ then Fact(false, c.left, c.right, truth == (c.op == EQEQ))
    else if c.op == LT || c.op == GE then Fact(true, c.left, c.right, truth == (c.op == LT))
    else Fact(true, c.right, c.left, truth == (c.op == GT))
  }

  function Both(xs: set<set<Fact>>, ys: set<set<Fact>>): set<set<Fact>> {
    set x, y | x in xs && y in ys :: x + y
  }

  /** The sets of answers that make a condition come out as `truth`. */
  function Ways(c: Expr, truth: bool): set<set<Fact>>
    requires Plain(c)
    decreases c
  {
    if IsJunction(c) then
      if (c.op == ANDAND) == truth then Both(Ways(c.left, truth), Ways(c.right, truth))
      else Ways(c.left, truth) + Ways(c.right, truth)
    else if IsNegation(c) then Ways(c.operand, !truth)
    else {{Answer(c, truth)}}
  }

  lemma AnswerDecides<W, S>(arch: Arch<W, S>, c: Expr, st: S, truth: bool)
    requires Plain(c) && !IsJunction(c) && !IsNegation(c)
    ensures FactHolds(arch, Answer(c, truth), st) <==> Truth(arch, c, st) == truth
  {
    ValueIsEval(arch, c, st);
    if c.Binary? {
      ValueIsEval(arch, c.left, st);
      ValueIsEval(arch, c.right, st);
    }
  }

  /** One of these sets holds when the condition comes out so. */
  lemma {:induction false} SomeWay<W, S>(arch: Arch<W, S>, c: Expr, st: S) returns (facts: set<Fact>)
    requires Plain(c)
    ensures facts in Ways(c, Truth(arch, c, st)) && AllHold(arch, facts, st)
    decreases c
  {
    hide FactHolds;
    if IsJunction(c) {
      var x := SomeWay(arch, c.left, st);
      var y := SomeWay(arch, c.right, st);
      var truth := Truth(arch, c, st);
      facts := if (c.op == ANDAND) == truth then x + y else if Truth(arch, c.left, st) == truth then x else y;
    } else if IsNegation(c) {
      facts := SomeWay(arch, c.operand, st);
    } else {
      AnswerDecides(arch, c, st, Truth(arch, c, st));
      facts := {Answer(c, Truth(arch, c, st))};
    }
  }

  /** And it comes out so when one of them holds. */
  lemma {:induction false} WayDecides<W, S>(arch: Arch<W, S>, c: Expr, st: S, truth: bool, facts: set<Fact>)
    requires Plain(c) && facts in Ways(c, truth) && AllHold(arch, facts, st)
    ensures Truth(arch, c, st) == truth
    decreases c
  {
    hide FactHolds;
    if IsJunction(c) {
      if (c.op == ANDAND) == truth {
        var x, y :| x in Ways(c.left, truth) && y in Ways(c.right, truth) && facts == x + y;
        WayDecides(arch, c.left, st, truth, x);
        WayDecides(arch, c.right, st, truth, y);
      } else if facts in Ways(c.left, truth) {
        WayDecides(arch, c.left, st, truth, facts);
      } else {
        WayDecides(arch, c.right, st, truth, facts);
      }
    } else if IsNegation(c) {
      WayDecides(arch, c.operand, st, !truth, facts);
    } else {
      AnswerDecides(arch, c, st, truth);
      assert Answer(c, truth) in facts;
    }
  }

  // ---- the test the code makes ----

  /** The condition whose truth the code goes by, unless it goes by none. */
  function TestMade(c: Expr): Expr
    requires Plain(c) && (c.Binary? ==> IsComparisonOf(c))
  {
    if c.Binary? then Binary(c.op, LeftCompared(Free, c, ()), CodeValue(Free, c.right, ()))
    else CodeValue(Free, c, ())
  }

  /** The free value of code says what it computes anywhere. */
  lemma {:induction false} CodeValueAnywhere<W, S>(arch: Arch<W, S>, e: Expr, st: S)
    requires Plain(e)
    ensures Plain(CodeValue(Free, e, ())) && CodeValue(arch, e, st) == Eval(arch, CodeValue(Free, e, ()), st)
    decreases e
  {
    CodeIsArithmetic(e);
    if IsLeaf(e) {
    } else if e.Unary? {
      CodeValueAnywhere(arch, e.operand, st);
    } else {
      CodeValueAnywhere(arch, e.left, st);
      CodeValueAnywhere(arch, e.right, st);
    }
  }

  lemma TestIsMade<W, S>(arch: Arch<W, S>, c: Expr, st: S)
    requires Plain(c) && (c.Binary? ==> IsComparisonOf(c))
    ensures Plain(TestMade(c)) && CodeTruth(arch, c, st) == Truth(arch, TestMade(c), st)
  {
    hide CodeValue; hide Eval;
    if c.Binary? {
      CodeValueAnywhere(arch, c.left, st);
      CodeValueAnywhere(arch, c.right, st);
    } else {
      CodeValueAnywhere(arch, c, st);
      CodeIsArithmetic(c);
      ArithmeticTruth(arch, CodeValue(Free, c, ()), st);
    }
  }

  lemma ArithmeticTruth<W, S>(arch: Arch<W, S>, e: Expr, st: S)
    requires Arithmetic(e)
    ensures Truth(arch, e, st) == !arch.equal(Eval(arch, e, st), arch.zero)
  {
  }

  /** The sets of answers on which the code and the condition part. */
  function Disagreements(c: Expr): set<set<Fact>>
    requires Plain(c)
  {
    if c.Binary? && !IsComparisonOf(c) then Ways(c, false)
    else
      TestIsMade(Free, c, ());
      Both(Ways(c, true), Ways(TestMade(c), false)) + Both(Ways(c, false), Ways(TestMade(c), true))
  }

  lemma PartsInSomeWay<W, S>(arch: Arch<W, S>, c: Expr, st: S) returns (facts: set<Fact>)
    requires Plain(c) && CodeTruth(arch, c, st) != Truth(arch, c, st)
    ensures facts in Disagreements(c) && AllHold(arch, facts, st)
  {
    hide FactHolds; hide Truth; hide Ways; hide CodeValue; hide LeftCompared; hide TestMade;
    facts := SomeWay(arch, c, st);
    if !(c.Binary? && !IsComparisonOf(c)) {
      TestIsMade(arch, c, st);
      var more := SomeWay(arch, TestMade(c), st);
      facts := facts + more;
    }
  }

  lemma WayParts<W, S>(arch: Arch<W, S>, c: Expr, st: S, facts: set<Fact>)
    requires Plain(c) && facts in Disagreements(c) && AllHold(arch, facts, st)
    ensures CodeTruth(arch, c, st) != Truth(arch, c, st)
  {
    hide FactHolds; hide Truth; hide Ways; hide CodeValue; hide LeftCompared; hide TestMade;
    if c.Binary? && !IsComparisonOf(c) {
      WayDecides(arch, c, st, false, facts);
    } else {
      TestIsMade(arch, c, st);
      var truth := facts in Both(Ways(c, true), Ways(TestMade(c), false));
      var x, y :| x in Ways(c, truth) && y in Ways(TestMade(c), !truth) && facts == x + y;
      WayDecides(arch, c, st, truth, x);
      WayDecides(arch, TestMade(c), st, !truth, y);
    }
  }

  // ---- whatever the operators mean ----

  /** The same question answered both ways. */
  predicate Contradictory(facts: set<Fact>) {
    exists f :: f in facts && f.(holds := !f.holds) in facts
  }

  predicate HasValue(e: Expr) { Plain(e) || e == ZERO }

  lemma {:induction false} WaysAreAboutValues(c: Expr, truth: bool, facts: set<Fact>, f: Fact)
    requires Plain(c) && facts in Ways(c, truth) && f in facts
    ensures HasValue(f.a) && HasValue(f.b)
    decreases c
  {
    if IsJunction(c) {
      if (c.op == ANDAND) == truth {
        var x, y :| x in Ways(c.left, truth) && y in Ways(c.right, truth) && facts == x + y;
        if f in x { WaysAreAboutValues(c.left, truth, x, f); } else { WaysAreAboutValues(c.right, truth, y, f); }
      } else if facts in Ways(c.left, truth) {
        WaysAreAboutValues(c.left, truth, facts, f);
      } else {
        WaysAreAboutValues(c.right, truth, facts, f);
      }
    } else if IsNegation(c) {
      WaysAreAboutValues(c.operand, !truth, facts, f);
    }
  }

  lemma AboutValues(c: Expr, facts: set<Fact>, f: Fact)
    requires Plain(c) && facts in Disagreements(c) && f in facts
    ensures HasValue(f.a) && HasValue(f.b)
  {
    hide Ways; hide CodeValue; hide LeftCompared; hide TestMade; hide HasValue;
    if c.Binary? && !IsComparisonOf(c) {
      WaysAreAboutValues(c, false, facts, f);
    } else {
      TestIsMade(Free, c, ());
      var truth := facts in Both(Ways(c, true), Ways(TestMade(c), false));
      var x, y :| x in Ways(c, truth) && y in Ways(TestMade(c), !truth) && facts == x + y;
      if f in x { WaysAreAboutValues(c, truth, x, f); } else { WaysAreAboutValues(TestMade(c), !truth, y, f); }
    }
  }

  /** The machine that answers as the facts say. */
  function Answering(facts: set<Fact>): Arch<Expr, ()> {
    Free.(zero := ZERO,
          equal := (a, b) => Fact(false, a, b, true) in facts,
          less := (a, b) => Fact(true, a, b, true) in facts)
  }

  lemma AnswersHold(facts: set<Fact>, f: Fact)
    requires f in facts && !Contradictory(facts) && HasValue(f.a) && HasValue(f.b)
    ensures FactHolds(Answering(facts), f, ())
  {
    hide Value;
    ValueIsItself(facts, f.a);
    ValueIsItself(facts, f.b);
    assert f.(holds := !f.holds) !in facts;
  }

  lemma ValueIsItself(facts: set<Fact>, e: Expr)
    requires HasValue(e)
    ensures Value(Answering(facts), e, ()) == e
  {
    if Plain(e) {
      ValueIsEval(Answering(facts), e, ());
      WithOrder(Answering(facts), Free, e);
      FreeEval(e);
    }
  }

  lemma ContradictionHoldsNowhere<W, S>(arch: Arch<W, S>, facts: set<Fact>, st: S)
    requires Contradictory(facts)
    ensures !AllHold(arch, facts, st)
  {
    hide Value;
    var f :| f in facts && f.(holds := !f.holds) in facts;
    assert FactHolds(arch, f, st) != FactHolds(arch, f.(holds := !f.holds), st);
  }

  /**
    Whatever operators, equality and order may mean, the code of a condition is right exactly
    when every set of answers on which it would part from the condition answers one question
    both ways.  For a condition that is fallen through these are the ways to make it false.
   */
  lemma ConditionRightExactlyWhen(c: Expr)
    requires Plain(c)
    ensures (forall arch: Arch<Expr, ()> :: Works(arch, c))
      <==> forall facts | facts in Disagreements(c) :: Contradictory(facts)
  {
    hide Truth; hide CodeTruth; hide Works; hide Disagreements; hide AllHold; hide HasValue; hide Contradictory;
    if forall facts | facts in Disagreements(c) :: Contradictory(facts) {
      forall arch: Arch<Expr, ()> ensures Works(arch, c) {
        forall st: () ensures CodeTruth(arch, c, st) == Truth(arch, c, st) {
          if CodeTruth(arch, c, st) != Truth(arch, c, st) {
            var facts := PartsInSomeWay(arch, c, st);
            ContradictionHoldsNowhere(arch, facts, st);
          }
        }
        WorksExactlyWhen(arch, c);
      }
    } else {
      var facts :| facts in Disagreements(c) && !Contradictory(facts);
      var arch := Answering(facts);
      AnswersAllHold(c, facts);
      WayParts(arch, c, (), facts);
      WorksExactlyWhen(arch, c);
    }
  }

  lemma AnswersAllHold(c: Expr, facts: set<Fact>)
    requires Plain(c) && facts in Disagreements(c) && !Contradictory(facts)
    ensures AllHold(Answering(facts), facts, ())
  {
    hide FactHolds; hide Disagreements; hide Contradictory; hide HasValue;
    forall f | f in facts ensures FactHolds(Answering(facts), f, ()) {
      AboutValues(c, facts, f);
      AnswersHold(facts, f);
    }
  }

  /** A binary condition without a branch: right exactly when it cannot fail. */
  lemma FallThroughRightExactlyWhen(c: Expr)
    requires Plain(c) && c.Binary? && !IsComparisonOf(c)
    ensures (forall arch: Arch<Expr, ()> :: Works(arch, c))
      <==> forall facts | facts in Ways(c, false) :: Contradictory(facts)
  {
    hide Works; hide Ways; hide Contradictory;
    ConditionRightExactlyWhen(c);
  }
}
