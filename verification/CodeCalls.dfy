/**
  Calls: what the function called finds in the argument registers, exactly when that is the
  arguments in order, and where the result goes.
 */
module CodeCalls {
  import opened Ast
  import opened CodeGen
  import opened CodeSemantics
  import opened CodeTheorems
  import opened CodeMemory
  import opened CodeValues

  predicate Terms(args: seq<Expr>): (r: bool)
    ensures r ==> forall x | x in args :: Runs(x)
  {
    forall x | x in args :: Term(x)
  }

  /** The last argument whose code is not direct, and so writes r1 and r2. */
  function LastIndirect(args: seq<Expr>): (r: Option<Expr>)
    ensures r.Some? ==> r.value in args && !Direct(r.value)
  {
    if args == [] then None
    else if LastIndirect(args[1..]).Some? then LastIndirect(args[1..])
    else if Direct(args[0]) then None else Some(args[0])
  }

  /** Arguments loaded from register 3 on are in their registers; the last indirect one has written r1 and r2. */
  lemma {:induction false} LaterArguments<W, S>(arch: Arch<W, S>, args: seq<Expr>, r: Reg, m: Machine<W, S>)
    requires Terms(args) && 3 <= r && r + |args| <= |m.regs|
    ensures var m', x := AfterArguments(arch, args, r, m), LastIndirect(args);
      m'.store == m.store && |m'.regs| == |m.regs|
      && m'.regs[R1] == (if x.Some? then InR1(arch, x.value, m.store) else m.regs[R1])
      && m'.regs[R2] == (if x.Some? then InR2(arch, x.value, m.store) else m.regs[R2])
      && (forall k | 3 <= k < r :: m'.regs[k] == m.regs[k])
      && (forall j | 0 <= j < |args| :: m'.regs[r + j] == Given(arch, args[j], m.store))
    decreases args
  {
    hide After; hide Given; hide InR1; hide InR2; hide Direct; hide Term;
    if args != [] {
      var m1 := After(arch, args[0], r, m);
      TermRegisters(arch, args[0], r, m);
      LaterArguments(arch, args[1..], r + 1, m1);
      var m' := AfterArguments(arch, args, r, m);
      forall j | 0 <= j < |args| ensures m'.regs[r + j] == Given(arch, args[j], m.store) {
        if j > 0 { assert m'.regs[r + 1 + (j - 1)] == Given(arch, args[1..][j - 1], m.store); }
      }
    }
  }

  /** The value in register `j + 1` when all arguments are loaded. */
  function Passed<W, S>(arch: Arch<W, S>, args: seq<Expr>, j: nat, st: S): W
    requires Terms(args) && j < |args|
  {
    var x := LastIndirect(args[j + 1..]);
    if j == 0 && x.Some? then InR1(arch, x.value, st)
    else if j == 1 && x.Some? then InR2(arch, x.value, st)
    else Given(arch, args[j], st)
  }

  /** All arguments, from r1 on. */
  lemma ArgumentsLoaded<W, S>(arch: Arch<W, S>, args: seq<Expr>, m: Machine<W, S>)
    requires Terms(args) && 2 < |m.regs| && 1 + |args| <= |m.regs|
    ensures var m' := AfterArguments(arch, args, R1, m);
      m'.store == m.store && |m'.regs| == |m.regs|
      && forall j | 0 <= j < |args| :: m'.regs[1 + j] == Passed(arch, args, j, m.store)
  {
    hide After; hide Given; hide InR1; hide InR2; hide Direct; hide Term;
    if |args| > 0 {
      var m1 := After(arch, args[0], R1, m);
      TermRegisters(arch, args[0], R1, m);
      if |args| > 1 { SecondLoaded(arch, args, m1); }
    }
  }

  lemma SecondLoaded<W, S>(arch: Arch<W, S>, args: seq<Expr>, m1: Machine<W, S>)
    requires Terms(args) && 1 < |args| && 2 < |m1.regs| && 1 + |args| <= |m1.regs|
    requires m1.regs[R1] == Given(arch, args[0], m1.store)
    ensures var m' := AfterArguments(arch, args[1..], R2, m1);
      m'.store == m1.store && |m'.regs| == |m1.regs|
      && forall j | 0 <= j < |args| :: m'.regs[1 + j] == Passed(arch, args, j, m1.store)
  {
    hide After; hide Given; hide InR1; hide InR2; hide Direct; hide Term;
    var m2 := After(arch, args[1], R2, m1);
    TermRegisters(arch, args[1], R2, m1);
    assert args[1..][1..] == args[2..] && args[1..][0] == args[1];
    LaterArguments(arch, args[2..], 3, m2);
    var m' := AfterArguments(arch, args[2..], 3, m2);
    assert AfterArguments(arch, args[1..], R2, m1) == m';
    forall j | 0 <= j < |args| ensures m'.regs[1 + j] == Passed(arch, args, j, m1.store) {
      if j >= 2 { assert m'.regs[3 + (j - 2)] == Given(arch, args[2..][j - 2], m1.store); }
    }
  }

  // ---- when the arguments are right ----

  /**
    Each argument is computed in its own register, but the first two must be what the last
    indirect argument behind them does in r1 and has for its second operand.
   */
  predicate InOrder(args: seq<Expr>)
    requires Terms(args)
  {
    forall j | 0 <= j < |args| ::
      var x := LastIndirect(args[j + 1..]);
      if j == 0 && x.Some? then Expanded(Pointer(x.value)) == Expanded(args[0])
      else if j == 1 && x.Some? then Expanded(Offset(x.value)) == Expanded(args[1])
      else Computed(args[j])
  }

  lemma {:induction false} LastAt(args: seq<Expr>) returns (k: nat)
    requires LastIndirect(args).Some?
    ensures k < |args| && args[k] == LastIndirect(args).value && LastIndirect(args[k + 1..]).None?
    decreases args
  {
    if LastIndirect(args[1..]).Some? {
      k := LastAt(args[1..]);
      assert args[1..][k + 1..] == args[k + 2..];
      k := k + 1;
    } else {
      k := 0;
    }
  }

  /** The last indirect argument behind the `j`-th stays in its own register. */
  lemma LastKept(args: seq<Expr>, j: nat) returns (g: nat)
    requires j < |args| && LastIndirect(args[j + 1..]).Some?
    ensures 0 < g < |args| && args[g] == LastIndirect(args[j + 1..]).value && LastIndirect(args[g + 1..]).None?
  {
    var k := LastAt(args[j + 1..]);
    g := j + 1 + k;
    assert args[j + 1..][k + 1..] == args[g + 1..];
  }

  lemma InOrderPasses<W, S>(arch: Arch<W, S>, args: seq<Expr>, j: nat, st: S)
    requires Terms(args) && InOrder(args) && j < |args|
    ensures Passed(arch, args, j, st) == Meaning(arch, args[j], st)
  {
    hide Given; hide InR1; hide InR2; hide Meaning; hide Expanded; hide Computed; hide LastIndirect; hide Offset;
    var x := LastIndirect(args[j + 1..]);
    if j < 2 && x.Some? {
      var g := LastKept(args, j);
      assert Computed(args[g]);
      ComputedGives(arch, x.value, st);
      var p := if j == 0 then Pointer(x.value) else Offset(x.value);
      ExpandedMeans(arch, p, st);
      ExpandedMeans(arch, args[j], st);
    } else {
      ComputedGives(arch, args[j], st);
    }
  }

  lemma FreePasses(args: seq<Expr>)
    requires Terms(args) && forall j: nat | j < |args| :: Passed(Free, args, j, ()) == Meaning(Free, args[j], ())
    ensures InOrder(args)
  {
    hide Given; hide InR1; hide InR2; hide Meaning; hide Expanded; hide Computed; hide LastIndirect; hide Offset;
    forall j: nat | j < |args|
      ensures j >= 2 || LastIndirect(args[j + 1..]).None? ==> Computed(args[j])
    {
      if j >= 2 || LastIndirect(args[j + 1..]).None? {
        FreeMeans(args[j]);
        FreeComputed(args[j]);
      }
    }
    forall j: nat | j < 2 && j < |args| && LastIndirect(args[j + 1..]).Some?
      ensures var x := LastIndirect(args[j + 1..]).value;
        Expanded(if j == 0 then Pointer(x) else Offset(x)) == Expanded(args[j])
    {
      var x := LastIndirect(args[j + 1..]).value;
      var g := LastKept(args, j);
      ComputedGives(Free, x, ());
      FreeMeans(if j == 0 then Pointer(x) else Offset(x));
      FreeMeans(args[j]);
    }
  }

  // ---- runs of calls ----

  /** At the call the registers from r1 on hold the values of the arguments. */
  ghost predicate Receives<W, S>(arch: Arch<W, S>, args: seq<Expr>, m: Machine<W, S>, m1: Machine<W, S>)
    requires Terms(args)
  {
    m1.store == m.store && |m1.regs| == |m.regs| && 1 + |args| <= |m.regs|
    && forall j | 0 <= j < |args| :: m1.regs[1 + j] == Meaning(arch, args[j], m.store)
  }

  lemma ReceivesWhatIsPassed<W, S>(arch: Arch<W, S>, args: seq<Expr>, m: Machine<W, S>)
    requires Terms(args) && 2 < |m.regs| && 1 + |args| <= |m.regs|
    ensures Receives(arch, args, m, AfterArguments(arch, args, R1, m)) <==>
      forall j: nat | j < |args| :: Passed(arch, args, j, m.store) == Meaning(arch, args[j], m.store)
  {
    hide AfterArguments; hide Passed; hide Meaning;
    ArgumentsLoaded(arch, args, m);
    var m1 := AfterArguments(arch, args, R1, m);
    if Receives(arch, args, m, m1) {
      forall j: nat | j < |args| ensures Passed(arch, args, j, m.store) == Meaning(arch, args[j], m.store) {
        assert m1.regs[1 + j] == Passed(arch, args, j, m.store);
      }
    }
  }

  /** The arguments arrive on every machine exactly when they are in order. */
  lemma ArgumentsArriveExactlyWhen(args: seq<Expr>)
    requires Terms(args)
    ensures (forall arch: Arch<Expr, ()>, m: Machine<Expr, ()> | 2 < |m.regs| && 1 + |args| <= |m.regs| ::
               Receives(arch, args, m, AfterArguments(arch, args, R1, m))) <==> InOrder(args)
  {
    hide AfterArguments; hide Passed; hide Meaning; hide InOrder; hide Receives;
    if InOrder(args) {
      forall arch: Arch<Expr, ()>, m: Machine<Expr, ()> | 2 < |m.regs| && 1 + |args| <= |m.regs|
        ensures Receives(arch, args, m, AfterArguments(arch, args, R1, m))
      {
        forall j: nat | j < |args| { InOrderPasses(arch, args, j, m.store); }
        ReceivesWhatIsPassed(arch, args, m);
      }
    } else {
      var m := Machine(seq(|args| + 3, k => Constant(0)), ());
      ReceivesWhatIsPassed(Free, args, m);
      if Receives(Free, args, m, AfterArguments(Free, args, R1, m)) { FreePasses(args); }
    }
  }

  /** The first argument may be any computed one; if all behind it are direct and computed, they are in order. */
  lemma {:induction false} DirectInOrder(args: seq<Expr>)
    requires Terms(args) && (forall x | x in args :: Computed(x)) && forall j | 1 <= j < |args| :: Direct(args[j])
    ensures InOrder(args)
  {
    forall j: nat | j < |args| ensures LastIndirect(args[j + 1..]).None? && Computed(args[j]) {
      if LastIndirect(args[j + 1..]).Some? { var g := LastKept(args, j); }
    }
  }

  /**
    The code of a call: the function runs once, on the values of its arguments in r1, r2 and so
    on and the store of before, and its result ends in the target.
   */
  lemma CallCodeRuns<W, S>(arch: Arch<W, S>, code: seq<Line>, i: nat, f: string, args: seq<Expr>, target: Reg, c: nat,
                           m: Machine<W, S>) returns (m1: Machine<W, S>, m': Machine<W, S>)
    requires Terms(args) && InOrder(args) && At(code, i, GenExpression(Call(f, args), target, c).lines)
    requires 2 < |m.regs| && 1 + |args| <= |m.regs| && target < |m.regs|
    ensures Receives(arch, args, m, m1)
    ensures Reaches(arch, code, i, |GenExpression(Call(f, args), target, c).lines|, m, m')
    ensures m'.store == arch.called(f, m1.regs, m1.store) && |m'.regs| == |m.regs|
    ensures m'.regs[target] == arch.returned(f, R1, m1.regs, m1.store)
  {
    m1 := AfterArguments(arch, args, R1, m);
    m' := After(arch, Call(f, args), target, m);
    assert m' == Moved(arch, target, AfterCall(arch, f, m1));
    hide After; hide AfterArguments; hide InOrder; hide Passed; hide Meaning; hide At; hide Reaches; hide GenExpression;
    forall j: nat | j < |args| { InOrderPasses(arch, args, j, m.store); }
    ReceivesWhatIsPassed(arch, args, m);
    CodeRuns(arch, code, i, Call(f, args), target, c, m);
  }
}
