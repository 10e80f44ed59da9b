/**
  The exact class of conditions whose code is right when equality is equality and the order is
  a strict one.  What the answers then imply is given by proofs; the machine built from them
  shows that nothing else is implied.
 */
module CodeOrdered {
  import opened Ast
  import opened CodeGen
  import opened CodeSemantics
  import opened CodeTheorems
  import opened CodeConditions
  import opened CodeOutcomes

  // ---- what answers imply ----

  /** Why one value is less than another, or equal to it. */
  datatype Proof =
    | Given
    | Same
    | Turned(p: Proof)
    | Chained(less: bool, mid: Expr, less': bool, p: Proof, q: Proof)
    | UnderUnary(p: Proof)
    | UnderBinary(p: Proof, q: Proof)

  predicate Proves(facts: set<Fact>, p: Proof, less: bool, a: Expr, b: Expr)
    decreases p
  {
    match p
    case Given => Fact(less, a, b, true) in facts
    case Same => !less && a == b
    case Turned(q) => !less && Proves(facts, q, false, b, a)
    case Chained(l, mid, l', q, q') => less == (l || l') && Proves(facts, q, l, a, mid) && Proves(facts, q', l', mid, b)
    case UnderUnary(q) =>
      !less && a.Unary? && b.Unary? && a.uop == b.uop && a.isPrefix == b.isPrefix
      && Proves(facts, q, false, a.operand, b.operand)
    case UnderBinary(q, q') =>
      !less && a.Binary? && b.Binary? && a.op == b.op
      && Proves(facts, q, false, a.left, b.left) && Proves(facts, q', false, a.right, b.right)
  }

  ghost predicate Provable(facts: set<Fact>, less: bool, a: Expr, b: Expr) {
    exists p :: Proves(facts, p, less, a, b)
  }

  /** Something is then less than itself, or an answer that was denied follows. */
  ghost predicate Refutable(facts: set<Fact>) {
    (exists a :: Provable(facts, true, a, a))
    || exists f :: f in facts && !f.holds && Provable(facts, f.order, f.a, f.b)
  }

  lemma ChainHolds<W(!new), S>(arch: Arch<W, S>, st: S, less: bool, a: Expr, mid: Expr, less': bool, b: Expr)
    requires Ordered(arch) && FactHolds(arch, Fact(less, a, mid, true), st)
    requires FactHolds(arch, Fact(less', mid, b, true), st)
    ensures FactHolds(arch, Fact(less || less', a, b, true), st)
  {
    hide Value;
  }

  lemma OperandsHold<W(!new), S>(arch: Arch<W, S>, st: S, a: Expr, b: Expr)
    requires Ordered(arch)
    requires (a.Unary? && b.Unary? && a.uop == b.uop && a.isPrefix == b.isPrefix
              && FactHolds(arch, Fact(false, a.operand, b.operand, true), st))
      || (a.Binary? && b.Binary? && a.op == b.op && FactHolds(arch, Fact(false, a.left, b.left, true), st)
          && FactHolds(arch, Fact(false, a.right, b.right, true), st))
    ensures FactHolds(arch, Fact(false, a, b, true), st)
  {
  }

  lemma EqualBothWays<W(!new), S>(arch: Arch<W, S>, st: S, a: Expr, b: Expr)
    requires Ordered(arch)
    ensures FactHolds(arch, Fact(false, a, a, true), st)
    ensures FactHolds(arch, Fact(false, b, a, true), st) ==> FactHolds(arch, Fact(false, a, b, true), st)
  {
    hide Value;
  }

  /** What is proved from answers holds where they hold. */
  lemma {:induction false} ProofHolds<W(!new), S>(arch: Arch<W, S>, facts: set<Fact>, st: S, p: Proof, less: bool,
          a: Expr, b: Expr)
    requires Ordered(arch) && AllHold(arch, facts, st) && Proves(facts, p, less, a, b)
    ensures FactHolds(arch, Fact(less, a, b, true), st)
    decreases p
  {
    hide FactHolds; hide Ordered;
    match p
    case Given =>
    case Same => EqualBothWays(arch, st, a, b);
    case Turned(q) =>
      ProofHolds(arch, facts, st, q, false, b, a);
      EqualBothWays(arch, st, a, b);
    case Chained(l, mid, l', q, q') =>
      ProofHolds(arch, facts, st, q, l, a, mid);
      ProofHolds(arch, facts, st, q', l', mid, b);
      ChainHolds(arch, st, l, a, mid, l', b);
    case UnderUnary(q) =>
      ProofHolds(arch, facts, st, q, false, a.operand, b.operand);
      OperandsHold(arch, st, a, b);
    case UnderBinary(q, q') =>
      ProofHolds(arch, facts, st, q, false, a.left, b.left);
      ProofHolds(arch, facts, st, q', false, a.right, b.right);
      OperandsHold(arch, st, a, b);
  }

  lemma RefutedHoldsNowhere<W(!new), S>(arch: Arch<W, S>, facts: set<Fact>, st: S)
    requires Ordered(arch) && Refutable(facts)
    ensures !AllHold(arch, facts, st)
  {
    hide Proves; hide Value;
    if AllHold(arch, facts, st) {
      if a :| Provable(facts, true, a, a) {
        var p :| Proves(facts, p, true, a, a);
        ProofHolds(arch, facts, st, p, true, a, a);
      } else {
        var f :| f in facts && !f.holds && Provable(facts, f.order, f.a, f.b);
        var p :| Proves(facts, p, f.order, f.a, f.b);
        ProofHolds(arch, facts, st, p, f.order, f.a, f.b);
      }
    }
  }

  // ---- rules ----

  lemma IsSame(facts: set<Fact>, a: Expr)
    ensures Provable(facts, false, a, a)
  {
    assert Proves(facts, Same, false, a, a);
  }

  lemma Turn(facts: set<Fact>, a: Expr, b: Expr)
    requires Provable(facts, false, a, b)
    ensures Provable(facts, false, b, a)
  {
    var p :| Proves(facts, p, false, a, b);
    assert Proves(facts, Turned(p), false, b, a);
  }

  lemma Chain(facts: set<Fact>, less: bool, a: Expr, mid: Expr, less': bool, b: Expr)
    requires Provable(facts, less, a, mid) && Provable(facts, less', mid, b)
    ensures Provable(facts, less || less', a, b)
  {
    var p :| Proves(facts, p, less, a, mid);
    var q :| Proves(facts, q, less', mid, b);
    assert Proves(facts, Chained(less, mid, less', p, q), less || less', a, b);
  }

  lemma Unaries(facts: set<Fact>, op: TokenKind, prefix: bool, a: Expr, b: Expr)
    requires Provable(facts, false, a, b)
    ensures Provable(facts, false, Unary(op, a, prefix), Unary(op, b, prefix))
  {
    var p :| Proves(facts, p, false, a, b);
    assert Proves(facts, UnderUnary(p), false, Unary(op, a, prefix), Unary(op, b, prefix));
  }

  lemma ProvesBinaries(facts: set<Fact>, op: TokenKind, p: Proof, a: Expr, b: Expr, q: Proof, a': Expr, b': Expr)
    requires Proves(facts, p, false, a, a') && Proves(facts, q, false, b, b')
    ensures Proves(facts, UnderBinary(p, q), false, Binary(op, a, b), Binary(op, a', b'))
  {
  }

  lemma Binaries(facts: set<Fact>, op: TokenKind, a: Expr, b: Expr, a': Expr, b': Expr)
    requires Provable(facts, false, a, a') && Provable(facts, false, b, b')
    ensures Provable(facts, false, Binary(op, a, b), Binary(op, a', b'))
  {
    hide Proves;
    var p :| Proves(facts, p, false, a, a');
    var q :| Proves(facts, q, false, b, b');
    ProvesBinaries(facts, op, p, a, b, q, a', b');
  }

  // ---- a machine for answers that are not refutable ----

  ghost function Class(facts: set<Fact>, e: Expr): iset<Expr> { iset x | Provable(facts, false, e, x) }

  ghost function Pick(s: iset<Expr>): Expr
    requires s != iset{}
  {
    var x :| x in s; x
  }

  /** One expression for all that are provably equal. */
  ghost function Rep(facts: set<Fact>, e: Expr): (r: Expr)
    ensures Provable(facts, false, e, r)
  {
    IsSame(facts, e);
    assert e in Class(facts, e);
    Pick(Class(facts, e))
  }

  lemma SameRep(facts: set<Fact>, a: Expr, b: Expr)
    ensures Rep(facts, a) == Rep(facts, b) <==> Provable(facts, false, a, b)
  {
    hide Provable;
    if Provable(facts, false, a, b) {
      Turn(facts, a, b);
      forall x ensures x in Class(facts, a) <==> x in Class(facts, b) {
        if Provable(facts, false, a, x) { Chain(facts, false, b, a, false, x); }
        if Provable(facts, false, b, x) { Chain(facts, false, a, b, false, x); }
      }
      assert Class(facts, a) == Class(facts, b);
    }
    if Rep(facts, a) == Rep(facts, b) {
      Turn(facts, b, Rep(facts, b));
      Chain(facts, false, a, Rep(facts, a), false, b);
    }
  }

  ghost function Model(facts: set<Fact>): Arch<Expr, ()> {
    Arch(
      n => Rep(facts, Constant(n)), (st, x) => Rep(facts, Variable(x)),
      (op, a, b) => Rep(facts, Binary(TokenOf(op), a, b)), (op, prefix, a) => Rep(facts, Unary(op, a, prefix)),
      (op, a, b) => Rep(facts, Binary(op, a, b)), Rep(facts, ZERO),
      (a, b) => a == b, (a, b) => Provable(facts, true, a, b), Free.asm, Free.scramble,
      Free.read, Free.address, Free.labelled, Free.called, Free.returned)
  }

  lemma {:induction false} ModelValue(facts: set<Fact>, e: Expr)
    requires HasValue(e)
    ensures Value(Model(facts), e, ()) == Rep(facts, e)
    decreases e
  {
    hide Rep; hide Provable;
    if e == ZERO || IsLeaf(e) {
    } else if e.Unary? {
      var x := Rep(facts, e.operand);
      ModelValue(facts, e.operand);
      Turn(facts, e.operand, x);
      Unaries(facts, e.uop, e.isPrefix, x, e.operand);
      SameRep(facts, Unary(e.uop, x, e.isPrefix), e);
    } else {
      var x, y := Rep(facts, e.left), Rep(facts, e.right);
      ModelValue(facts, e.left);
      ModelValue(facts, e.right);
      Turn(facts, e.left, x);
      Turn(facts, e.right, y);
      Binaries(facts, e.op, x, y, e.left, e.right);
      SameRep(facts, Binary(e.op, x, y), e);
      if AluOf(e.op).Some? { assert TokenOf(AluOf(e.op).value) == e.op; }
    }
  }

  lemma ModelIsOrdered(facts: set<Fact>)
    requires !Refutable(facts)
    ensures Ordered(Model(facts))
  {
    hide Provable; hide Rep;
    var arch := Model(facts);
    forall a, b | arch.less(a, b) ensures !arch.less(b, a) {
      if arch.less(b, a) { Chain(facts, true, a, b, true, a); }
    }
    forall a, b, c | arch.less(a, b) && arch.less(b, c) ensures arch.less(a, c) {
      Chain(facts, true, a, b, true, c);
    }
  }

  lemma ModelAnswers(facts: set<Fact>, f: Fact)
    requires f in facts && !Refutable(facts) && HasValue(f.a) && HasValue(f.b)
    ensures FactHolds(Model(facts), f, ())
  {
    hide Rep; hide Value; hide HasValue; hide Provable;
    ModelValue(facts, f.a);
    ModelValue(facts, f.b);
    if f.order {
      LessOfReps(facts, f.a, f.b);
    } else {
      SameRep(facts, f.a, f.b);
    }
    if f.holds { IsGiven(facts, f); }
  }

  lemma IsGiven(facts: set<Fact>, f: Fact)
    requires f in facts && f.holds
    ensures Provable(facts, f.order, f.a, f.b)
  {
    assert Proves(facts, Given, f.order, f.a, f.b);
  }

  lemma LessOfReps(facts: set<Fact>, a: Expr, b: Expr)
    ensures Provable(facts, true, Rep(facts, a), Rep(facts, b)) <==> Provable(facts, true, a, b)
  {
    hide Provable;
    var x, y := Rep(facts, a), Rep(facts, b);
    Turn(facts, a, x);
    Turn(facts, b, y);
    if Provable(facts, true, x, y) {
      Chain(facts, false, a, x, true, y);
      Chain(facts, true, a, y, false, b);
    }
    if Provable(facts, true, a, b) {
      Chain(facts, false, x, a, true, b);
      Chain(facts, true, x, b, false, y);
    }
  }

  // ---- the theorem ----

  /**
    With a true equality and a strict order the code of a condition is right exactly when every
    set of answers on which it would part from the condition is refutable.
   */
  lemma OrderedConditionRightExactlyWhen(c: Expr)
    requires Plain(c)
    ensures (forall arch: Arch<Expr, ()> | Ordered(arch) :: Works(arch, c))
      <==> forall facts | facts in Disagreements(c) :: Refutable(facts)
  {
    hide Truth; hide CodeTruth; hide Works; hide Disagreements; hide AllHold; hide HasValue; hide Refutable;
    hide Ordered;
    if forall facts | facts in Disagreements(c) :: Refutable(facts) {
      forall arch: Arch<Expr, ()> | Ordered(arch) ensures Works(arch, c) {
        forall st: () ensures CodeTruth(arch, c, st) == Truth(arch, c, st) {
          if CodeTruth(arch, c, st) != Truth(arch, c, st) {
            var facts := PartsInSomeWay(arch, c, st);
            RefutedHoldsNowhere(arch, facts, st);
          }
        }
        WorksExactlyWhen(arch, c);
      }
    } else {
      var facts :| facts in Disagreements(c) && !Refutable(facts);
      var arch := Model(facts);
      ModelIsOrdered(facts);
      ModelAllHold(c, facts);
      WayParts(arch, c, (), facts);
      WorksExactlyWhen(arch, c);
    }
  }

  lemma ModelAllHold(c: Expr, facts: set<Fact>)
    requires Plain(c) && facts in Disagreements(c) && !Refutable(facts)
    ensures AllHold(Model(facts), facts, ())
  {
    hide FactHolds; hide Disagreements; hide Refutable; hide HasValue; hide Model;
    forall f | f in facts ensures FactHolds(Model(facts), f, ()) {
      AboutValues(c, facts, f);
      ModelAnswers(facts, f);
    }
  }

  // ---- conditions that are fallen through ----

  lemma OrderedFallThroughRightExactlyWhen(c: Expr)
    requires Plain(c) && c.Binary? && !IsComparisonOf(c)
    ensures (forall arch: Arch<Expr, ()> | Ordered(arch) :: Works(arch, c))
      <==> forall facts | facts in Ways(c, false) :: Refutable(facts)
  {
    hide Works; hide Ways; hide Refutable; hide Ordered;
    OrderedConditionRightExactlyWhen(c);
  }

  /** Conjunctions of `==`, `<=` and `>=` of an expression with itself. */
  predicate Certain(c: Expr)
    requires Plain(c)
    decreases c
  {
    if IsComparisonOf(c) then c.left == c.right && (c.op == EQEQ || c.op == LE || c.op == GE)
    else c.Binary? && c.op == ANDAND && Certain(c.left) && Certain(c.right)
  }

  /** Single tests joined by `&&`. */
  predicate IsConjunction(c: Expr)
    decreases c
  {
    if c.Binary? && c.op == ANDAND then IsConjunction(c.left) && IsConjunction(c.right)
    else !IsJunction(c) && !IsNegation(c)
  }

  lemma {:induction false} CertainHolds<W(!new), S>(arch: Arch<W, S>, c: Expr, st: S)
    requires Plain(c) && Certain(c) && Ordered(arch)
    ensures Truth(arch, c, st)
    decreases c
  {
    if !IsComparisonOf(c) {
      CertainHolds(arch, c.left, st);
      CertainHolds(arch, c.right, st);
    }
  }

  /** For conjunctions that comes down to their shape. */
  lemma ConjunctionRightExactlyWhen(c: Expr)
    requires Plain(c) && c.Binary? && !IsComparisonOf(c) && IsConjunction(c)
    ensures (forall arch: Arch<Expr, ()> | Ordered(arch) :: Works(arch, c)) <==> Certain(c)
  {
    hide Works; hide Truth; hide Certain; hide Ordered;
    if Certain(c) {
      forall arch: Arch<Expr, ()> | Ordered(arch) ensures Works(arch, c) {
        forall st: () ensures CodeTruth(arch, c, st) == Truth(arch, c, st) { CertainHolds(arch, c, st); }
        WorksExactlyWhen(arch, c);
      }
    } else {
      var arch := Refuted(c);
      WorksExactlyWhen(arch, c);
    }
  }

  lemma {:induction false} Refuted(c: Expr) returns (arch: Arch<Expr, ()>)
    requires Plain(c) && IsConjunction(c) && !Certain(c)
    ensures Ordered(arch) && !Truth(arch, c, ())
    decreases c
  {
    if IsComparisonOf(c) {
      arch := ComparisonRefuted(c);
    } else if c.Binary? && c.op == ANDAND {
      if !Certain(c.left) { arch := Refuted(c.left); } else { arch := Refuted(c.right); }
    } else {
      arch := Free.(zero := c);
      WithOrder(arch, Free, c);
      FreeEval(c);
    }
  }

  /** The arrangement of two sides that makes a comparison false. */
  lemma ComparisonRefuted(c: Expr) returns (arch: Arch<Expr, ()>)
    requires IsComparisonOf(c) && !(c.left == c.right && (c.op == EQEQ || c.op == LE || c.op == GE))
    ensures Ordered(arch) && !Truth(arch, c, ())
  {
    var l, r := c.left, c.right;
    FreeEval(l);
    FreeEval(r);
    arch := if c.op == GE then Telling(l, r, LT) else if c.op == LE then Telling(l, r, GT) else Free;
    if c.op == NEQ && l != r {
      // equal values for two different expressions
      arch := Constantly(Constant(0));
      ConstantValue(l, Constant(0));
      ConstantValue(r, Constant(0));
    } else {
      WithOrder(arch, Free, l);
      WithOrder(arch, Free, r);
    }
  }

  /** All values are the same one. */
  function Constantly(v: Expr): Arch<Expr, ()> {
    Free.(constant := n => v, load := (st, x) => v, alu := (o, a, b) => v, unary := (o, p, a) => v,
          other := (o, a, b) => v, zero := v)
  }

  lemma ConstantValue(e: Expr, v: Expr)
    requires Plain(e)
    ensures Eval(Constantly(v), e, ()) == v
  {
  }
}
