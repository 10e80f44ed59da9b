/**
  The value the code of an expression leaves in its target, and exactly when it is the value of
  the expression; the arguments a call finds in its registers, and exactly when they are right.
 */
module CodeValues {
  import opened Ast
  import opened CodeGen
  import opened CodeSemantics
  import opened CodeTheorems
  import opened CodeMemory

  // ---- terms ----

  /** Operators, addresses, dereferences and indexing over constants and variables. */
  predicate Term(e: Expr): (r: bool)
    ensures r ==> Runs(e)
    decreases e
  {
    match e
    case Constant(_) => true
    case Variable(_) => true
    case AddressOf(x) => x.Variable?
    case Unary(_, x, _) => Term(x)
    case Deref(x) => Term(x)
    case Binary(_, l, r) => Term(l) && Term(r)
    case Index(a, i) => Term(a) && Term(i)
    case _ => false
  }

  /** Its code changes the target only. */
  predicate Direct(e: Expr)
    decreases e
  {
    match e
    case Unary(_, x, _) => Direct(x)
    case Deref(x) => Direct(x)
    case Binary(_, _, _) => false
    case Index(_, _) => false
    case _ => true
  }

  /** The value of a term; an element lies at the base plus the index shifted left by three. */
  function Meaning<W, S>(arch: Arch<W, S>, e: Expr, st: S): W
    requires Term(e)
    decreases e
  {
    match e
    case Constant(v) => arch.constant(v)
    case Variable(x) => arch.load(st, x)
    case AddressOf(x) => arch.address(x.name)
    case Unary(op, x, prefix) => arch.unary(op, prefix, Meaning(arch, x, st))
    case Deref(x) => arch.read(st, Meaning(arch, x, st))
    case Binary(op, l, r) =>
      var a, b := Meaning(arch, l, st), Meaning(arch, r, st);
      if AluOf(op).Some? then arch.alu(AluOf(op).value, a, b) else arch.other(op, a, b)
    case Index(a, i) =>
      var base, offset := Meaning(arch, a, st), arch.alu(SLL, Meaning(arch, i, st), arch.constant(3));
      arch.read(st, arch.alu(ADD, base, offset))
  }

  // ---- what the code leaves ----

  /** The value the code leaves in the target. */
  function Given<W, S>(arch: Arch<W, S>, e: Expr, st: S): W
    requires Term(e)
    decreases e, 1
  {
    match e
    case Constant(v) => arch.constant(v)
    case Variable(x) => arch.load(st, x)
    case AddressOf(x) => arch.address(x.name)
    case Unary(_, x, _) => Given(arch, x, st)
    case Deref(x) => arch.read(st, Given(arch, x, st))
    case Binary(op, _, r) =>
      var a, b := First(arch, e, st), Given(arch, r, st);
      if AluOf(op).Some? then arch.alu(AluOf(op).value, a, b) else a
    case Index(_, i) =>
      arch.read(st, arch.alu(ADD, First(arch, e, st), arch.alu(SLL, Given(arch, i, st), arch.constant(3))))
  }

  /** Has it two operands, the first evaluated into r1 and the second into r2? */
  predicate Paired(e: Expr) { e.Binary? || e.Index? }

  function Left(e: Expr): (l: Expr)
    requires Paired(e)
    ensures Term(e) ==> Term(l)
    ensures l < e
  {
    if e.Binary? then e.left else e.base
  }

  function Right(e: Expr): (r: Expr)
    requires Paired(e)
    ensures Term(e) ==> Term(r)
    ensures r < e
  {
    if e.Binary? then e.right else e.index
  }

  /** What the code of both operands leaves in r1: a second one that is not direct overwrites the first. */
  function First<W, S>(arch: Arch<W, S>, e: Expr, st: S): W
    requires Term(e) && Paired(e)
    decreases e, 0
  {
    if Direct(Right(e)) then Given(arch, Left(e), st) else InR1(arch, Right(e), st)
  }

  /** What code that is not direct leaves in r1, its target being another register. */
  function InR1<W, S>(arch: Arch<W, S>, e: Expr, st: S): W
    requires Term(e) && !Direct(e)
    decreases e, 1
  {
    match e
    case Unary(_, x, _) => InR1(arch, x, st)
    case Deref(x) => InR1(arch, x, st)
    case Binary(op, _, r) =>
      var a, b := First(arch, e, st), Given(arch, r, st);
      if AluOf(op).Some? then arch.alu(AluOf(op).value, a, b) else a
    case Index(_, i) =>
      arch.alu(ADD, First(arch, e, st), arch.alu(SLL, Given(arch, i, st), arch.constant(3)))
  }

  /** And in r2, its target being neither. */
  function InR2<W, S>(arch: Arch<W, S>, e: Expr, st: S): W
    requires Term(e) && !Direct(e)
    decreases e, 1
  {
    match e
    case Unary(_, x, _) => InR2(arch, x, st)
    case Deref(x) => InR2(arch, x, st)
    case Binary(_, _, r) => Given(arch, r, st)
    case Index(_, i) => arch.alu(SLL, Given(arch, i, st), arch.constant(3))
  }

  /** The code of a term keeps the store and what it does not name: of a direct one all but the target. */
  lemma {:induction false} TermRegisters<W, S>(arch: Arch<W, S>, e: Expr, target: Reg, m: Machine<W, S>)
    requires Term(e) && 2 < |m.regs| && target < |m.regs|
    ensures var m' := After(arch, e, target, m);
      m'.store == m.store && |m'.regs| == |m.regs| && m'.regs[target] == Given(arch, e, m.store)
      && (forall k | 0 <= k < |m.regs| && k != target && (Direct(e) || (k != R1 && k != R2)) :: m'.regs[k] == m.regs[k])
      && (!Direct(e) && target != R1 ==> m'.regs[R1] == InR1(arch, e, m.store))
      && (!Direct(e) && target != R1 && target != R2 ==> m'.regs[R2] == InR2(arch, e, m.store))
    decreases e
  {
    match e
    case Unary(_, x, _) => TermRegisters(arch, x, target, m);
    case Deref(x) => TermRegisters(arch, x, target, m);
    case Binary(op, l, r) =>
      PairRegisters(arch, e, m);
    case Index(a, i) =>
      PairRegisters(arch, e, m);
    case _ =>
  }

  lemma {:induction false} PairRegisters<W, S>(arch: Arch<W, S>, e: Expr, m: Machine<W, S>)
    requires Term(e) && Paired(e) && 2 < |m.regs|
    ensures var m' := After(arch, Right(e), R2, After(arch, Left(e), R1, m));
      m'.store == m.store && |m'.regs| == |m.regs|
      && m'.regs[R1] == First(arch, e, m.store) && m'.regs[R2] == Given(arch, Right(e), m.store)
      && (forall k | 0 <= k < |m.regs| && k != R1 && k != R2 :: m'.regs[k] == m.regs[k])
    decreases e, 0
  {
    hide After; hide Given; hide InR1; hide InR2; hide Direct;
    TermRegisters(arch, Left(e), R1, m);
    TermRegisters(arch, Right(e), R2, After(arch, Left(e), R1, m));
  }

  /** On terms of operators alone these are the notions for arithmetic. */
  lemma {:induction false} PlainAgrees<W, S>(arch: Arch<W, S>, e: Expr, st: S)
    requires Plain(e)
    ensures Term(e) && (Direct(e) <==> IsBare(e)) && Given(arch, e, st) == CodeValue(arch, e, st)
    ensures Meaning(arch, e, st) == Eval(arch, e, st) && (!Direct(e) ==> InR1(arch, e, st) == Given(arch, e, st))
    decreases e
  {
    match e
    case Unary(_, x, _) => PlainAgrees(arch, x, st);
    case Binary(_, l, r) =>
      PlainAgrees(arch, l, st);
      PlainAgrees(arch, r, st);
    case _ =>
  }

  // ---- when that is the value ----

  /** Where an element lies, as the compiler sees it. */
  function ElementAddress(a: Expr, i: Expr): (p: Expr)
    ensures Term(a) && Term(i) ==> Term(p)
  {
    var offset := Binary(LSHIFT, i, Constant(3));
    assert Term(i) ==> Term(offset);
    Binary(PLUS, a, offset)
  }

  lemma ElementMeans<W, S>(arch: Arch<W, S>, a: Expr, i: Expr, st: S)
    requires Term(a) && Term(i)
    ensures Meaning(arch, ElementAddress(a, i), st) ==
      arch.alu(ADD, Meaning(arch, a, st), arch.alu(SLL, Meaning(arch, i, st), arch.constant(3)))
  {
    var offset := Binary(LSHIFT, i, Constant(3));
    assert Meaning(arch, Constant(3), st) == arch.constant(3);
    assert Meaning(arch, offset, st) == arch.alu(SLL, Meaning(arch, i, st), arch.constant(3));
  }

  /** The term with indexing written out. */
  function Expanded(e: Expr): (r: Expr)
    requires Term(e)
    ensures Term(r)
    decreases e
  {
    match e
    case Unary(op, x, prefix) => Unary(op, Expanded(x), prefix)
    case Deref(x) => Deref(Expanded(x))
    case Binary(op, l, r) => Binary(op, Expanded(l), Expanded(r))
    case Index(a, i) => Deref(ElementAddress(Expanded(a), Expanded(i)))
    case _ => e
  }

  lemma {:induction false} ExpandedMeans<W, S>(arch: Arch<W, S>, e: Expr, st: S)
    requires Term(e)
    ensures Meaning(arch, Expanded(e), st) == Meaning(arch, e, st)
    decreases e
  {
    match e
    case Unary(_, x, _) => ExpandedMeans(arch, x, st);
    case Deref(x) => ExpandedMeans(arch, x, st);
    case Binary(_, l, r) =>
      ExpandedMeans(arch, l, st);
      ExpandedMeans(arch, r, st);
    case Index(a, i) =>
      ExpandedMeans(arch, a, st);
      ExpandedMeans(arch, i, st);
      ElementMeans(arch, Expanded(a), Expanded(i), st);
      hide ElementAddress;
    case _ =>
  }

  /** The operation code that is not direct does last in r1: of an element its address. */
  function Pointer(e: Expr): (p: Expr)
    requires Term(e) && !Direct(e)
    ensures Term(p) && p.Binary?
    decreases e
  {
    match e
    case Unary(_, x, _) => Pointer(x)
    case Deref(x) => Pointer(x)
    case Index(a, i) => ElementAddress(a, i)
    case _ => e
  }

  /** And the second operand of it. */
  function Offset(e: Expr): (p: Expr)
    requires Term(e) && !Direct(e)
    ensures Term(p)
  {
    Pointer(e).right
  }

  /**
    Only arithmetic, dereferences and indexing; every second operand is direct, or what it does
    in r1 is what the first operand would have left there.
   */
  predicate Computed(e: Expr)
    requires Term(e)
    decreases e
  {
    match e
    case Unary(_, _, _) => false
    case Deref(x) => Computed(x)
    case Binary(op, l, r) =>
      AluOf(op).Some? && Computed(r) && if Direct(r) then Computed(l) else Expanded(Pointer(r)) == Expanded(l)
    case Index(a, i) => Computed(i) && if Direct(i) then Computed(a) else Expanded(Pointer(i)) == Expanded(a)
    case _ => true
  }

  lemma OffsetMeans<W, S>(arch: Arch<W, S>, a: Expr, i: Expr, st: S)
    requires Term(Index(a, i))
    ensures Meaning(arch, Offset(Index(a, i)), st) == arch.alu(SLL, Meaning(arch, i, st), arch.constant(3))
  {
    assert Pointer(Index(a, i)) == ElementAddress(a, i);
    assert Offset(Index(a, i)) == Binary(LSHIFT, i, Constant(3));
    assert Meaning(arch, Constant(3), st) == arch.constant(3);
  }

  lemma {:induction false} ComputedGives<W, S>(arch: Arch<W, S>, e: Expr, st: S)
    requires Term(e) && Computed(e)
    ensures Given(arch, e, st) == Meaning(arch, e, st)
    ensures !Direct(e) ==> InR1(arch, e, st) == Meaning(arch, Pointer(e), st)
    ensures !Direct(e) ==> InR2(arch, e, st) == Meaning(arch, Offset(e), st)
    decreases e
  {
    if e.Deref? {
      ComputedGives(arch, e.operand, st);
    } else if Paired(e) {
      FirstGives(arch, e, st);
      ComputedGives(arch, Right(e), st);
      if e.Index? {
        ElementMeans(arch, e.base, e.index, st);
        OffsetMeans(arch, e.base, e.index, st);
      }
      hide First; hide ElementAddress; hide Computed;
    }
  }

  lemma {:induction false} FirstGives<W, S>(arch: Arch<W, S>, e: Expr, st: S)
    requires Term(e) && Paired(e) && Computed(e)
    ensures First(arch, e, st) == Meaning(arch, Left(e), st)
    decreases e, 0
  {
    hide Given; hide InR1; hide Meaning; hide Expanded;
    if Direct(Right(e)) {
      ComputedGives(arch, Left(e), st);
    } else {
      ComputedGives(arch, Right(e), st);
      ExpandedMeans(arch, Pointer(Right(e)), st);
      ExpandedMeans(arch, Left(e), st);
    }
  }

  // ---- the free machine ----

  lemma FreeOperation(op: TokenKind, a: Expr, b: Expr)
    ensures (if AluOf(op).Some? then Free.alu(AluOf(op).value, a, b) else Free.other(op, a, b)) == Binary(op, a, b)
  {
    if AluOf(op).Some? { assert TokenOf(AluOf(op).value) == op; }
  }

  lemma FreeElement(a: Expr, i: Expr)
    ensures Free.read((), Free.alu(ADD, a, Free.alu(SLL, i, Free.constant(3)))) == Deref(ElementAddress(a, i))
  {
    FreeOperation(LSHIFT, i, Constant(3));
    FreeOperation(PLUS, a, Binary(LSHIFT, i, Constant(3)));
    assert AluOf(LSHIFT) == Some(SLL) && AluOf(PLUS) == Some(ADD);
  }

  lemma {:induction false} FreeMeans(e: Expr)
    requires Term(e)
    ensures Meaning(Free, e, ()) == Expanded(e)
    decreases e
  {
    match e
    case Unary(_, x, _) => FreeMeans(x);
    case Deref(x) => FreeMeans(x);
    case Binary(op, l, r) =>
      FreeMeans(l);
      FreeMeans(r);
      FreeOperation(op, Expanded(l), Expanded(r));
      hide AluOf; hide TokenOf;
    case Index(a, i) =>
      FreeMeans(a);
      FreeMeans(i);
      FreeElement(Expanded(a), Expanded(i));
      hide AluOf; hide TokenOf; hide ElementAddress;
    case _ =>
  }

  /** Code does no unary, comparison or logical operation. */
  lemma {:induction false} FreeGivesArithmetic(e: Expr)
    requires Term(e)
    ensures var g := Given(Free, e, ()); !g.Unary? && (g.Binary? ==> AluOf(g.op).Some?)
    ensures !Direct(e) ==> var g := InR1(Free, e, ()); !g.Unary? && (g.Binary? ==> AluOf(g.op).Some?)
    decreases e
  {
    match e
    case Unary(_, x, _) => FreeGivesArithmetic(x);
    case Deref(x) => FreeGivesArithmetic(x);
    case Binary(_, l, r) =>
      FreeGivesArithmetic(l);
      FreeGivesArithmetic(r);
    case _ =>
  }

  lemma {:induction false} FreeComputed(e: Expr)
    requires Term(e) && Given(Free, e, ()) == Expanded(e)
    ensures Computed(e)
    decreases e
  {
    FreeGivesArithmetic(e);
    if e.Deref? {
      FreeComputed(e.operand);
    } else if Paired(e) {
      FreeComputed(Right(e));
      if Direct(Right(e)) {
        FreeComputed(Left(e));
      } else {
        ComputedGives(Free, Right(e), ());
        FreeMeans(Pointer(Right(e)));
      }
    }
  }

  /** The code of a term gives its value on every machine exactly when the term is computed. */
  lemma GivesValueExactlyWhen(e: Expr)
    requires Term(e)
    ensures (forall arch: Arch<Expr, ()> :: Given(arch, e, ()) == Meaning(arch, e, ())) <==> Computed(e)
  {
    if Computed(e) {
      forall arch: Arch<Expr, ()> ensures Given(arch, e, ()) == Meaning(arch, e, ()) { ComputedGives(arch, e, ()); }
    }
    FreeMeans(e);
    if Given(Free, e, ()) == Meaning(Free, e, ()) { FreeComputed(e); }
  }

  // ---- runs ----

  /** The code of `e` at `i` runs to its end with the value of `e` in the target and the store as it was. */
  ghost predicate Delivers<W, S>(arch: Arch<W, S>, code: seq<Line>, i: nat, e: Expr, target: Reg, c: nat,
          m: Machine<W, S>)
    requires Term(e)
  {
    var n := |GenExpression(e, target, c).lines|;
    var r := Run(arch, code, Running(i, m), n);
    r.Running? && r.pc == i + n && r.m.store == m.store
    && target < |r.m.regs| && r.m.regs[target] == Meaning(arch, e, m.store)
  }

  /** Run or read off the term, it is the same value. */
  lemma DeliversGiven<W, S>(arch: Arch<W, S>, code: seq<Line>, i: nat, e: Expr, target: Reg, c: nat, m: Machine<W, S>)
    requires Term(e) && At(code, i, GenExpression(e, target, c).lines) && 2 < |m.regs| && target < |m.regs|
    ensures Delivers(arch, code, i, e, target, c, m) <==> Given(arch, e, m.store) == Meaning(arch, e, m.store)
  {
    hide Run; hide At; hide GenExpression; hide After; hide Given; hide Meaning; hide InR1; hide InR2;
    CodeRuns(arch, code, i, e, target, c, m);
    TermRegisters(arch, e, target, m);
  }

  /** On every machine, with any words and store, the code of a computed term delivers its value. */
  lemma ComputedDelivers<W, S>(arch: Arch<W, S>, code: seq<Line>, i: nat, e: Expr, target: Reg, c: nat,
                               m: Machine<W, S>)
    requires Term(e) && Computed(e)
    requires At(code, i, GenExpression(e, target, c).lines) && 2 < |m.regs| && target < |m.regs|
    ensures Delivers(arch, code, i, e, target, c, m)
  {
    hide Delivers; hide At;
    ComputedGives(arch, e, m.store);
    DeliversGiven(arch, code, i, e, target, c, m);
  }

  /** And no other term's code does: wherever it stands there is a machine on which it leaves another value. */
  lemma DeliversExactlyWhen(code: seq<Line>, i: nat, e: Expr, target: Reg, c: nat)
    requires Term(e) && At(code, i, GenExpression(e, target, c).lines)
    ensures (forall arch: Arch<Expr, ()>, m: Machine<Expr, ()> | 2 < |m.regs| && target < |m.regs| ::
               Delivers(arch, code, i, e, target, c, m)) <==> Computed(e)
  {
    hide Delivers; hide At; hide Given; hide Meaning; hide Computed;
    if Computed(e) {
      forall arch: Arch<Expr, ()>, m: Machine<Expr, ()> | 2 < |m.regs| && target < |m.regs|
        ensures Delivers(arch, code, i, e, target, c, m)
      {
        ComputedDelivers(arch, code, i, e, target, c, m);
      }
    } else {
      GivesValueExactlyWhen(e);
      var arch: Arch<Expr, ()> :| Given(arch, e, ()) != Meaning(arch, e, ());
      var m := Machine(seq(target + 3, k => Constant(0)), ());
      DeliversGiven(arch, code, i, e, target, c, m);
    }
  }

  // ---- expressions whose effect is missing ----

  /** The code of an assignment computes the value and leaves it in the target; nothing is stored. */
  lemma AssignmentIsNotStored<W, S>(arch: Arch<W, S>, code: seq<Line>, i: nat, l: Expr, v: Expr, target: Reg, c: nat,
                                    m: Machine<W, S>)
    requires Term(v) && Computed(v) && At(code, i, GenExpression(Assign(l, v), target, c).lines)
    requires 2 < |m.regs| && target < |m.regs|
    ensures var m' := After(arch, Assign(l, v), target, m);
      Reaches(arch, code, i, |GenExpression(Assign(l, v), target, c).lines|, m, m')
      && m'.store == m.store && |m'.regs| == |m.regs| && m'.regs[target] == Meaning(arch, v, m.store)
  {
    hide Reaches; hide At; hide GenExpression; hide Given; hide Meaning; hide InR1; hide InR2;
    CodeRuns(arch, code, i, Assign(l, v), target, c, m);
    TermRegisters(arch, v, R1, m);
    ComputedGives(arch, v, m.store);
  }

  /** Casts, sizes, members, inline assembly and addresses of anything but a variable, under unary operators or not. */
  predicate Uncoded(e: Expr)
    decreases e
  {
    match e
    case Unary(_, x, _) => Uncoded(x)
    case AddressOf(x) => !x.Variable?
    case Cast(_, _) => true
    case SizeOf(_) => true
    case Member(_, _) => true
    case Asm(_) => true
    case _ => false
  }

  /** They have no code, so the target keeps whatever it held. */
  lemma {:induction false} UncodedKeepsTarget<W, S>(arch: Arch<W, S>, e: Expr, target: Reg, c: nat, m: Machine<W, S>)
    requires Uncoded(e)
    ensures GenExpression(e, target, c) == Emitted([], c) && Runs(e) && After(arch, e, target, m) == m
    decreases e
  {
    if e.Unary? { UncodedKeepsTarget(arch, e.operand, target, c, m); }
  }
}
