/**
  Running the generated code and executing the structured statement agree: the same outcome
  where there is one, and no end where there is none.
 */
module CodeSimulation {
  import opened Ast
  import opened CodeGen
  import opened CodeSemantics
  import opened CodeTheorems
  import opened CodeConditions

  /** `n` steps from `start` do what `outcome` says; `end` is where the statement's code ends. */
  ghost predicate Simulates<W, S>(arch: Arch<W, S>, code: seq<Line>, start: Config<W, S>, end: nat, fuel: nat,
          outcome: Outcome<W, S>, n: nat, cfg: Config<W, S>)
  {
    Run(arch, code, start, n) == cfg &&
    match outcome
    case Next(st) => cfg.Running? && cfg.pc == end && cfg.m.store == st && 2 < |cfg.m.regs|
    case Done(st, v) => cfg.Returned? && cfg.m.store == st && 2 < |cfg.m.regs|
      && (v.Some? ==> cfg.m.regs[R1] == v.value)
    case OutOfFuel => cfg.Running? && fuel <= n
  }

  // ---- composing runs ----

  lemma Prepend<W, S>(arch: Arch<W, S>, code: seq<Line>, start: Config<W, S>, a: nat, mid: Config<W, S>,
                              end: nat, fuel: nat, o: Outcome<W, S>, n: nat, cfg: Config<W, S>)
    requires Run(arch, code, start, a) == mid && Simulates(arch, code, mid, end, fuel, o, n, cfg)
    ensures Simulates(arch, code, start, end, fuel, o, a + n, cfg)
  {
    hide Run;
    RunAdd(arch, code, start, a, n);
  }

  /** A run that went on normally goes on for `k` more steps. */
  lemma Extend<W, S>(arch: Arch<W, S>, code: seq<Line>, start: Config<W, S>, mid: nat, end: nat, fuel: nat,
                             o: Outcome<W, S>, n: nat, cfg: Config<W, S>, k: nat) returns (n': nat, cfg': Config<W, S>)
    requires Simulates(arch, code, start, mid, fuel, o, n, cfg)
    requires o.Next? ==> Run(arch, code, cfg, k) == Running(end, cfg.m)
    ensures Simulates(arch, code, start, end, fuel, o, n', cfg')
  {
    hide Run;
    if o.Next? {
      RunAdd(arch, code, start, n, k);
      n', cfg' := n + k, Running(end, cfg.m);
    } else {
      n', cfg' := n, cfg;
    }
  }

  /** Going to a label continues after its definition. */
  lemma LabelReached<W, S>(arch: Arch<W, S>, code: seq<Line>, l: nat, k: nat, m: Machine<W, S>)
    requires UniqueLabels(code) && k < |code| && code[k] == LabelDef(l)
    ensures GoTo(code, l, m) == Running(k, m)
    ensures Run(arch, code, Running(k, m), 1) == Running(k + 1, m)
  {
    hide Run;
    FindDefinition(code, l, k);
    RunOne(arch, code, Running(k, m));
  }

  lemma JumpRuns<W, S>(arch: Arch<W, S>, code: seq<Line>, j: nat, l: nat, k: nat, m: Machine<W, S>)
    requires UniqueLabels(code) && k < |code| && code[k] == LabelDef(l) && j < |code| && code[j] == Jmp(l)
    ensures Run(arch, code, Running(j, m), 1) == Running(k, m)
    ensures Run(arch, code, Running(j, m), 2) == Running(k + 1, m)
  {
    hide Run;
    LabelReached(arch, code, l, k, m);
    RunOne(arch, code, Running(j, m));
    RunAdd(arch, code, Running(j, m), 1, 1);
  }

  // ---- statements ----

  lemma {:induction false} StatementSimulated<W, S>(arch: Arch<W, S>, code: seq<Line>, i: nat, s: Stmt, c: nat,
          m: Machine<W, S>, fuel: nat)
    returns (n: nat, cfg: Config<W, S>)
    requires Supported(s) && At(code, i, GenStatement(s, c).lines) && UniqueLabels(code) && 2 < |m.regs|
    ensures Simulates(arch, code, Running(i, m), i + |GenStatement(s, c).lines|, fuel, Exec(arch, s, m.store, fuel), n,
      cfg)
    decreases fuel, s, 3
  {
    hide At; hide UniqueLabels; hide Truth;
    match s
    case Block(ss) => n, cfg := BlockSimulated(arch, code, i, ss, c, m, fuel);
    case If(_, _, _) => n, cfg := IfSimulated(arch, code, i, s, c, m, fuel);
    case While(cond, b) => n, cfg := LoopSimulated(arch, code, i, Some(cond), b, None, c, c + 2, m, fuel);
    case For(init, cond, inc, b) => n, cfg := ForSimulated(arch, code, i, s, c, m, fuel);
    case DoWhile(b, cond) => n, cfg := DoSimulated(arch, code, i, b, cond, c, m, fuel);
    case Return(e) => n, cfg := ReturnSimulated(arch, code, i, e, c, m, fuel);
    case AsmStmt(text) => n, cfg := AsmSimulated(arch, code, i, text, m, fuel);
    case ExprStmt(e) =>
      if e.Asm? { n, cfg := AsmSimulated(arch, code, i, e.code, m, fuel); } else { n, cfg := 0, Running(i, m); }
    case Empty => n, cfg := 0, Running(i, m);
  }

  lemma AsmSimulated<W, S>(arch: Arch<W, S>, code: seq<Line>, i: nat, text: string, m: Machine<W, S>, fuel: nat)
      returns (n: nat, cfg: Config<W, S>)
    requires At(code, i, [AsmLine(text)]) && 2 < |m.regs|
    ensures Simulates(arch, code, Running(i, m), i + 1, fuel, Next(arch.asm(text, m.store)), n, cfg)
  {
    assert [AsmLine(text)] == [AsmLine(text)] + [];
    AtLine(code, i, AsmLine(text), []);
    RunOne(arch, code, Running(i, m));
    n, cfg := 1, Step(arch, code, Running(i, m));
  }

  lemma ReturnSimulated<W, S>(arch: Arch<W, S>, code: seq<Line>, i: nat, e: Option<Expr>, c: nat, m: Machine<W, S>,
          fuel: nat)
    returns (n: nat, cfg: Config<W, S>)
    requires Supported(Return(e)) && At(code, i, GenOption(e, c).lines + [Ret]) && 2 < |m.regs|
    ensures Simulates(arch, code, Running(i, m), i + |GenOption(e, c).lines| + 1, fuel,
                      Exec(arch, Return(e), m.store, fuel), n, cfg)
  {
    hide Run;
    var value := GenOption(e, c).lines;
    AtSplit(code, i, value, [Ret]);
    assert [Ret] == [Ret] + [];
    AtLine(code, i + |value|, Ret, []);
    var m' := OptionRuns(arch, code, i, e, c, m);
    if e.Some? {
      RegistersAfter(arch, e.value, R1, m.regs, m.store);
      RightLeafComputes(arch, e.value, m.store);
    }
    RunOne(arch, code, Running(i + |value|, m'));
    RunAdd(arch, code, Running(i, m), |value|, 1);
    n, cfg := |value| + 1, Returned(m');
  }

  /** An optional expression runs to its end and changes registers only. */
  lemma OptionRuns<W, S>(arch: Arch<W, S>, code: seq<Line>, i: nat, e: Option<Expr>, c: nat, m: Machine<W, S>)
      returns (m': Machine<W, S>)
    requires (e.Some? ==> Arithmetic(e.value)) && At(code, i, GenOption(e, c).lines)
    ensures Run(arch, code, Running(i, m), |GenOption(e, c).lines|) == Running(i + |GenOption(e, c).lines|, m')
    ensures m' == (if e.Some? then m.(regs := RegsAfter(arch, e.value, R1, m.regs, m.store)) else m)
  {
    m' := m;
    if e.Some? {
      ExpressionRuns(arch, code, i, e.value, R1, c, m);
      m' := m.(regs := RegsAfter(arch, e.value, R1, m.regs, m.store));
    }
  }

  lemma {:induction false} BlockSimulated<W, S>(arch: Arch<W, S>, code: seq<Line>, i: nat, ss: seq<Stmt>, c: nat,
          m: Machine<W, S>, fuel: nat)
    returns (n: nat, cfg: Config<W, S>)
    requires (forall x | x in ss :: Supported(x)) && At(code, i, GenStatements(ss, c).lines) && UniqueLabels(code)
    requires 2 < |m.regs|
    ensures Simulates(arch, code, Running(i, m), i + |GenStatements(ss, c).lines|, fuel,
      ExecAll(arch, ss, m.store, fuel), n, cfg)
    decreases fuel, ss, 2
  {
    hide Step; hide GenStatement; hide Exec; hide UniqueLabels; hide At;
    if ss == [] {
      n, cfg := 0, Running(i, m);
    } else {
      var first := GenStatement(ss[0], c);
      var more := GenStatements(ss[1..], first.next);
      AtSplit(code, i, first.lines, more.lines);
      n, cfg := StatementSimulated(arch, code, i, ss[0], c, m, fuel);
      if Exec(arch, ss[0], m.store, fuel).Next? {
        var n1, cfg1 := n, cfg;
        n, cfg := BlockSimulated(arch, code, i + |first.lines|, ss[1..], first.next, cfg1.m, fuel);
        Prepend(arch, code, Running(i, m), n1, cfg1, i + |first.lines| + |more.lines|, fuel,
                ExecAll(arch, ss[1..], cfg1.m.store, fuel), n, cfg);
        n := n1 + n;
      }
    }
  }

  lemma {:induction false} IfSimulated<W, S>(arch: Arch<W, S>, code: seq<Line>, i: nat, s: Stmt, c: nat,
          m: Machine<W, S>, fuel: nat)
    returns (n: nat, cfg: Config<W, S>)
    requires s.If? && Supported(s) && At(code, i, GenIf(s, c).lines) && UniqueLabels(code) && 2 < |m.regs|
    ensures Simulates(arch, code, Running(i, m), i + |GenIf(s, c).lines|, fuel, Exec(arch, s, m.store, fuel), n, cfg)
    decreases fuel, s, 2
  {
    hide Run; hide Step; hide Truth; hide GenStatement; hide GenCondition; hide GenIf; hide At; hide IsTail;
    var test := GenCondition(s.cond, c, false, c + 2);
    var yes := GenStatement(s.thenBody, test.next);
    var tail := IfParts(s, c);
    AtSplit(code, i, test.lines, yes.lines + tail);
    AtSplit(code, i + |test.lines|, yes.lines, tail);
    var j := i + |test.lines| + |yes.lines|;
    var m1 := ConditionRuns(arch, code, i, s.cond, c, c + 2, m);
    var end := i + |GenIf(s, c).lines|;
    assert end == j + |tail|;
    if Truth(arch, s.cond, m.store) {
      n, cfg := StatementSimulated(arch, code, i + |test.lines|, s.thenBody, test.next, m1, fuel);
      var o := Exec(arch, s.thenBody, m.store, fuel);
      var k := ThenJoins(arch, code, j, tail, s, c, yes.next, if cfg.Wrong? then m else cfg.m);
      n, cfg := Extend(arch, code, Running(i + |test.lines|, m1), j, end, fuel, o, n, cfg, k);
      Prepend(arch, code, Running(i, m), |test.lines|, Running(i + |test.lines|, m1), end, fuel, o, n, cfg);
      n := |test.lines| + n;
    } else {
      n, cfg := ElseSimulated(arch, code, j, tail, s, c, yes.next, m1, fuel);
      Prepend(arch, code, Running(i, m), |test.lines|, GoTo(code, c, m1), end, fuel, Exec(arch, s, m.store, fuel), n,
        cfg);
      n := |test.lines| + n;
    }
  }

  /** Test, then part, tail. */
  lemma IfParts(s: Stmt, c: nat) returns (tail: seq<Line>)
    requires s.If?
    ensures var test := GenCondition(s.cond, c, false, c + 2); var yes := GenStatement(s.thenBody, test.next);
      GenIf(s, c).lines == test.lines + (yes.lines + tail) && IsTail(s, c, yes.next, tail)
  {
    hide GenCondition; hide GenStatement;
    var yes := GenStatement(s.thenBody, GenCondition(s.cond, c, false, c + 2).next);
    tail := if s.elseBody.Some? then
        [Jmp(c + 1), LabelDef(c)] + (GenStatement(s.elseBody.value, yes.next).lines + [LabelDef(c + 1)])
      else [LabelDef(c)];
  }

  /** What follows the then part. */
  predicate IsTail(s: Stmt, c: nat, next: nat, tail: seq<Line>)
    requires s.If?
  {
    tail == if s.elseBody.Some? then
        [Jmp(c + 1), LabelDef(c)] + (GenStatement(s.elseBody.value, next).lines + [LabelDef(c + 1)])
      else [LabelDef(c)]
  }

  lemma TailLines(code: seq<Line>, j: nat, tail: seq<Line>, s: Stmt, c: nat, next: nat)
    requires s.If? && At(code, j, tail) && IsTail(s, c, next, tail)
    ensures s.elseBody.None? ==> j < |code| && code[j] == LabelDef(c) && |tail| == 1
    ensures s.elseBody.Some? ==>
      var no := GenStatement(s.elseBody.value, next).lines;
      |tail| == |no| + 3 && j + |tail| <= |code| && code[j] == Jmp(c + 1) && code[j + 1] == LabelDef(c)
      && At(code, j + 2, no) && code[j + 2 + |no|] == LabelDef(c + 1)
  {
    if s.elseBody.Some? {
      var no := GenStatement(s.elseBody.value, next).lines;
      assert tail == [Jmp(c + 1)] + ([LabelDef(c)] + (no + [LabelDef(c + 1)]));
      AtLine(code, j, Jmp(c + 1), [LabelDef(c)] + (no + [LabelDef(c + 1)]));
      AtLine(code, j + 1, LabelDef(c), no + [LabelDef(c + 1)]);
      AtSplit(code, j + 2, no, [LabelDef(c + 1)]);
      assert [LabelDef(c + 1)] == [LabelDef(c + 1)] + [];
      AtLine(code, j + 2 + |no|, LabelDef(c + 1), []);
    } else {
      assert tail == [LabelDef(c)] + [];
      AtLine(code, j, LabelDef(c), []);
    }
  }

  lemma ThenJoins<W, S>(arch: Arch<W, S>, code: seq<Line>, j: nat, tail: seq<Line>, s: Stmt, c: nat, next: nat,
                        m: Machine<W, S>) returns (k: nat)
    requires s.If? && At(code, j, tail) && IsTail(s, c, next, tail) && UniqueLabels(code)
    ensures Run(arch, code, Running(j, m), k) == Running(j + |tail|, m)
  {
    hide Run; hide Step; hide GenStatement; hide At; hide UniqueLabels; hide IsTail;
    TailLines(code, j, tail, s, c, next);
    if s.elseBody.Some? {
      JumpRuns(arch, code, j, c + 1, j + |tail| - 1, m);
      k := 2;
    } else {
      LabelReached(arch, code, c, j, m);
      k := 1;
    }
  }

  lemma {:induction false} ElseSimulated<W, S>(arch: Arch<W, S>, code: seq<Line>, j: nat, tail: seq<Line>, s: Stmt,
          c: nat, next: nat, m: Machine<W, S>, fuel: nat)
    returns (n: nat, cfg: Config<W, S>)
    requires s.If? && Supported(s) && At(code, j, tail) && IsTail(s, c, next, tail) && UniqueLabels(code)
      && 2 < |m.regs|
    ensures Simulates(arch, code, GoTo(code, c, m), j + |tail|, fuel,
                      if s.elseBody.Some? then Exec(arch, s.elseBody.value, m.store, fuel) else Next(m.store), n, cfg)
    decreases fuel, s, 1
  {
    hide Run; hide Step; hide Exec; hide GenStatement; hide At; hide UniqueLabels; hide IsTail;
    TailLines(code, j, tail, s, c, next);
    if s.elseBody.Some? {
      var no := GenStatement(s.elseBody.value, next).lines;
      LabelReached(arch, code, c, j + 1, m);
      n, cfg := StatementSimulated(arch, code, j + 2, s.elseBody.value, next, m, fuel);
      var o := Exec(arch, s.elseBody.value, m.store, fuel);
      LabelReached(arch, code, c + 1, j + 2 + |no|, if cfg.Wrong? then m else cfg.m);
      n, cfg := Extend(arch, code, Running(j + 2, m), j + 2 + |no|, j + |tail|, fuel, o, n, cfg, 1);
      Prepend(arch, code, Running(j + 1, m), 1, Running(j + 2, m), j + |tail|, fuel, o, n, cfg);
      n := 1 + n;
    } else {
      LabelReached(arch, code, c, j, m);
      n, cfg := 1, Running(j + 1, m);
    }
  }

  // ---- loops ----

  lemma AtParts(code: seq<Line>, i: nat, first: Line, a: seq<Line>, b: seq<Line>, c: seq<Line>, y: Line, z: Line)
    requires At(code, i, [first] + (a + (b + (c + [y, z]))))
    ensures var j := i + 1 + |a| + |b| + |c|;
      j + 2 <= |code| && code[i] == first && At(code, i + 1, a) && At(code, i + 1 + |a|, b)
        && At(code, i + 1 + |a| + |b|, c)
      && code[j] == y && code[j + 1] == z
  {
    hide At;
    AtLine(code, i, first, a + (b + (c + [y, z])));
    AtSplit(code, i + 1, a, b + (c + [y, z]));
    AtSplit(code, i + 1 + |a|, b, c + [y, z]);
    AtSplit(code, i + 1 + |a| + |b|, c, [y, z]);
    var j := i + 1 + |a| + |b| + |c|;
    assert [y, z] == [y] + [z] && [z] == [z] + [];
    AtLine(code, j, y, [z]);
    AtLine(code, j + 1, z, []);
  }

  lemma LoopLines(code: seq<Line>, i: nat, cond: Option<Expr>, b: Stmt, inc: Option<Expr>, start: nat, c: nat)
    requires At(code, i, GenLoop(cond, b, inc, start, c).lines)
    ensures var test := if cond.Some? then GenCondition(cond.value, start + 1, false, c) else Emitted([], c);
      var body := GenStatement(b, test.next);
      var step := GenOption(inc, body.next);
      var end := i + |GenLoop(cond, b, inc, start, c).lines|;
      end == i + |test.lines| + |body.lines| + |step.lines| + 3 && end <= |code|
      && code[i] == LabelDef(start) && At(code, i + 1, test.lines) && At(code, i + 1 + |test.lines|, body.lines)
      && At(code, i + 1 + |test.lines| + |body.lines|, step.lines)
      && code[end - 2] == Jmp(start) && code[end - 1] == LabelDef(start + 1)
  {
    hide GenStatement; hide GenCondition; hide GenOption;
    var test := if cond.Some? then GenCondition(cond.value, start + 1, false, c) else Emitted([], c);
    var body := GenStatement(b, test.next);
    var step := GenOption(inc, body.next);
    AtParts(code, i, LabelDef(start), test.lines, body.lines, step.lines, Jmp(start), LabelDef(start + 1));
  }

  /** From its label, a loop's test goes on to the body when true and past the loop when false. */
  lemma LoopTest<W, S>(arch: Arch<W, S>, code: seq<Line>, i: nat, cond: Option<Expr>, exit: nat, c: nat, end: nat,
      m: Machine<W, S>)
      returns (n: nat, m': Machine<W, S>)
    requires UniqueLabels(code) && 2 < |m.regs| && i < |code| && code[i].LabelDef?
    requires cond.Some? ==> SupportedCondition(cond.value)
    requires var test := if cond.Some? then GenCondition(cond.value, exit, false, c).lines else [];
      At(code, i + 1, test)
    requires 0 < end <= |code| && code[end - 1] == LabelDef(exit)
    ensures m'.store == m.store && |m'.regs| == |m.regs|
    ensures var test := if cond.Some? then GenCondition(cond.value, exit, false, c).lines else [];
      Run(arch, code, Running(i, m), n) ==
        if cond.Some? && !Truth(arch, cond.value, m.store) then Running(end, m') else Running(i + 1 + |test|, m')
  {
    hide Run; hide Step;
    LabelReached(arch, code, code[i].id, i, m);
    n, m' := 1, m;
    if cond.Some? {
      m' := ConditionRuns(arch, code, i + 1, cond.value, exit, c, m);
      var k := |GenCondition(cond.value, exit, false, c).lines|;
      RunAdd(arch, code, Running(i, m), 1, k);
      n := 1 + k;
      if !Truth(arch, cond.value, m.store) {
        LabelReached(arch, code, exit, end - 1, m');
        RunAdd(arch, code, Running(i, m), n, 1);
        n := n + 1;
      }
    }
  }

  lemma {:induction false} LoopSimulated<W, S>(arch: Arch<W, S>, code: seq<Line>, i: nat, cond: Option<Expr>,
          b: Stmt, inc: Option<Expr>, start: nat, c: nat, m: Machine<W, S>, fuel: nat)
    returns (n: nat, cfg: Config<W, S>)
    requires Supported(b) && (cond.Some? ==> SupportedCondition(cond.value)) && (inc.Some? ==> Arithmetic(inc.value))
    requires At(code, i, GenLoop(cond, b, inc, start, c).lines) && UniqueLabels(code) && 2 < |m.regs|
    ensures Simulates(arch, code, Running(i, m), i + |GenLoop(cond, b, inc, start, c).lines|, fuel,
                      ExecLoop(arch, cond, b, m.store, fuel), n, cfg)
    decreases fuel, b, 4
  {
    hide Run; hide Step; hide Exec; hide Truth; hide GenStatement; hide GenCondition; hide GenOption; hide At;
    LoopLines(code, i, cond, b, inc, start, c);
    var test := if cond.Some? then GenCondition(cond.value, start + 1, false, c) else Emitted([], c);
    var body := GenStatement(b, test.next);
    var step := GenOption(inc, body.next);
    var end := i + |GenLoop(cond, b, inc, start, c).lines|;
    var nt, m1 := LoopTest(arch, code, i, cond, start + 1, c, end, m);
    if cond.Some? && !Truth(arch, cond.value, m.store) {
      n, cfg := nt, Running(end, m1);
    } else {
      var j := i + 1 + |test.lines|;
      n, cfg := StatementSimulated(arch, code, j, b, test.next, m1, fuel);
      var o := Exec(arch, b, m.store, fuel);
      RunAdd(arch, code, Running(i, m), nt, n);
      n := nt + n;
      if o.Next? && fuel > 0 {
        var m2 := cfg.m;
        var k, m3 := BackEdge(arch, code, j + |body.lines|, inc, body.next, start, i, m2);
        var n', cfg' := LoopSimulated(arch, code, i, cond, b, inc, start, c, m3, fuel - 1);
        RunAdd(arch, code, Running(i, m), n, k);
        RunAdd(arch, code, Running(i, m), n + k, n');
        n, cfg := n + k + n', cfg';
      }
    }
  }

  /** The step expression and the jump lead back to the loop's label. */
  lemma BackEdge<W, S>(arch: Arch<W, S>, code: seq<Line>, j: nat, inc: Option<Expr>, c: nat, start: nat, i: nat,
      m: Machine<W, S>)
      returns (k: nat, m': Machine<W, S>)
    requires (inc.Some? ==> Arithmetic(inc.value)) && UniqueLabels(code) && 2 < |m.regs|
    requires At(code, j, GenOption(inc, c).lines) && j + |GenOption(inc, c).lines| < |code|
    requires code[j + |GenOption(inc, c).lines|] == Jmp(start) && i < |code| && code[i] == LabelDef(start)
    ensures 1 <= k && Run(arch, code, Running(j, m), k) == Running(i, m') && m'.store == m.store
      && |m'.regs| == |m.regs|
  {
    hide Run; hide Step;
    var a := |GenOption(inc, c).lines|;
    m' := OptionRuns(arch, code, j, inc, c, m);
    JumpRuns(arch, code, j + a, start, i, m');
    RunAdd(arch, code, Running(j, m), a, 1);
    k := a + 1;
  }

  lemma {:induction false} ForSimulated<W, S>(arch: Arch<W, S>, code: seq<Line>, i: nat, s: Stmt, c: nat,
          m: Machine<W, S>, fuel: nat)
    returns (n: nat, cfg: Config<W, S>)
    requires s.For? && Supported(s) && At(code, i, GenStatement(s, c).lines) && UniqueLabels(code) && 2 < |m.regs|
    ensures Simulates(arch, code, Running(i, m), i + |GenStatement(s, c).lines|, fuel, Exec(arch, s, m.store, fuel), n,
      cfg)
    decreases fuel, s, 2
  {
    hide Run; hide Step;
    var init := GenOption(s.init, c + 2);
    var loop := GenLoop(s.forCond, s.body, s.inc, c, init.next);
    AtSplit(code, i, init.lines, loop.lines);
    var m1 := OptionRuns(arch, code, i, s.init, c + 2, m);
    n, cfg := LoopSimulated(arch, code, i + |init.lines|, s.forCond, s.body, s.inc, c, init.next, m1, fuel);
    Prepend(arch, code, Running(i, m), |init.lines|, Running(i + |init.lines|, m1), i + |init.lines| + |loop.lines|,
      fuel,
            ExecLoop(arch, s.forCond, s.body, m.store, fuel), n, cfg);
    n := |init.lines| + n;
  }

  lemma DoLines(code: seq<Line>, i: nat, b: Stmt, cond: Expr, c: nat)
    requires At(code, i, GenDo(b, cond, c).lines)
    ensures var body := GenStatement(b, c + 2);
      var test := GenCondition(cond, c + 1, false, body.next);
      var end := i + |GenDo(b, cond, c).lines|;
      end == i + |body.lines| + |test.lines| + 3 && end <= |code|
      && code[i] == LabelDef(c) && At(code, i + 1, body.lines) && At(code, i + 1 + |body.lines|, test.lines)
      && code[end - 2] == Jmp(c) && code[end - 1] == LabelDef(c + 1)
  {
    hide GenStatement; hide GenCondition;
    var body := GenStatement(b, c + 2);
    var test := GenCondition(cond, c + 1, false, body.next);
    assert [Jmp(c), LabelDef(c + 1)] == [] + [Jmp(c), LabelDef(c + 1)];
    AtParts(code, i, LabelDef(c), body.lines, test.lines, [], Jmp(c), LabelDef(c + 1));
  }

  /** The test at the end of the body: behind the loop when it fails, back to the start when it does not. */
  lemma DoTest<W, S>(arch: Arch<W, S>, code: seq<Line>, j: nat, cond: Expr, c: nat, next: nat, i: nat, end: nat,
          m: Machine<W, S>, again: bool)
    returns (n: nat, m': Machine<W, S>)
    requires SupportedCondition(cond) && At(code, j, GenCondition(cond, c + 1, false, next).lines)
    requires UniqueLabels(code) && 2 < |m.regs| && i < |code| && code[i] == LabelDef(c)
    requires end == j + |GenCondition(cond, c + 1, false, next).lines| + 2 <= |code|
    requires code[end - 2] == Jmp(c) && code[end - 1] == LabelDef(c + 1)
    ensures 1 <= n && m'.store == m.store && |m'.regs| == |m.regs|
    ensures Run(arch, code, Running(j, m), n) ==
      Running(if !Truth(arch, cond, m.store) then end else if again then i else end - 2, m')
  {
    hide Run; hide Step; hide Truth; hide GenCondition; hide At; hide UniqueLabels;
    m' := ConditionRuns(arch, code, j, cond, c + 1, next, m);
    n := |GenCondition(cond, c + 1, false, next).lines|;
    if !Truth(arch, cond, m.store) {
      LabelReached(arch, code, c + 1, end - 1, m');
      RunAdd(arch, code, Running(j, m), n, 1);
      n := n + 1;
    } else if again {
      JumpRuns(arch, code, end - 2, c, i, m');
      RunAdd(arch, code, Running(j, m), n, 1);
      n := n + 1;
    }
  }

  lemma {:induction false} DoSimulated<W, S>(arch: Arch<W, S>, code: seq<Line>, i: nat, b: Stmt, cond: Expr, c: nat,
          m: Machine<W, S>, fuel: nat)
    returns (n: nat, cfg: Config<W, S>)
    requires Supported(b) && SupportedCondition(cond) && At(code, i, GenDo(b, cond, c).lines) && UniqueLabels(code)
    requires 2 < |m.regs|
    ensures Simulates(arch, code, Running(i, m), i + |GenDo(b, cond, c).lines|, fuel,
      ExecDo(arch, cond, b, m.store, fuel), n, cfg)
    decreases fuel, b, 4
  {
    hide Run; hide Step; hide Exec; hide Truth; hide GenStatement; hide GenCondition; hide At; hide GenDo;
    hide UniqueLabels; hide GoTo; hide Find;
    DoLines(code, i, b, cond, c);
    var body := GenStatement(b, c + 2);
    var end := i + |GenDo(b, cond, c).lines|;
    LabelReached(arch, code, c, i, m);
    n, cfg := StatementSimulated(arch, code, i + 1, b, c + 2, m, fuel);
    var o := Exec(arch, b, m.store, fuel);
    RunAdd(arch, code, Running(i, m), 1, n);
    n := 1 + n;
    if o.Next? {
      var goesOn := Truth(arch, cond, cfg.m.store);
      var k, m2 := DoTest(arch, code, i + 1 + |body.lines|, cond, c, body.next, i, end, cfg.m, fuel > 0);
      RunAdd(arch, code, Running(i, m), n, k);
      n, cfg := n + k, Running(if !goesOn then end else if fuel > 0 then i else end - 2, m2);
      if goesOn && fuel > 0 {
        var n', cfg' := DoSimulated(arch, code, i, b, cond, c, m2, fuel - 1);
        RunAdd(arch, code, Running(i, m), n, n');
        n, cfg := n + n', cfg';
      }
    }
  }

  // ---- functions ----

  /** The code of a function whose body is `s`, without its prologue. */
  function BodyCode(s: Stmt, c: nat): seq<Line> { GenStatement(s, c).lines + [Ret] }

  ghost predicate Halts<W, S>(arch: Arch<W, S>, code: seq<Line>, m: Machine<W, S>, n: nat) {
    Run(arch, code, Running(0, m), n).Returned?
  }

  ghost predicate Ends<W, S>(arch: Arch<W, S>, s: Stmt, st: S, fuel: nat)
    requires Supported(s)
  {
    Exec(arch, s, st, fuel) != OutOfFuel
  }

  /** What a halted machine shows of a finished execution. */
  ghost predicate Shows<W, S>(arch: Arch<W, S>, cfg: Config<W, S>, o: Outcome<W, S>) {
    cfg.Returned? &&
    match o
    case Next(st) => cfg.m.store == st
    case Done(st, v) => cfg.m.store == st && R1 < |cfg.m.regs| && (v.Some? ==> cfg.m.regs[R1] == v.value)
    case OutOfFuel => false
  }

  lemma FunctionLabels(name: string, s: Stmt, c: nat)
    ensures UniqueLabels(Prologue(name) + BodyCode(s, c))
  {
    forall l: nat ensures Defs(Prologue(name) + BodyCode(s, c), l) <= 1 {
      StatementLabels(s, c, l);
      DefsAppend(Prologue(name), BodyCode(s, c), l);
      DefsAppend(GenStatement(s, c).lines, [Ret], l);
      PrologueLabels(name, l);
    }
  }

  lemma PrologueRuns<W, S>(arch: Arch<W, S>, code: seq<Line>, name: string, m: Machine<W, S>)
    requires At(code, 0, Prologue(name))
    ensures Run(arch, code, Running(0, m), 4) == Running(4, m)
  {
    assert code[0] == Prologue(name)[0] && code[1] == Prologue(name)[1];
    assert code[2] == Prologue(name)[2] && code[3] == Prologue(name)[3];
    RunOne(arch, code, Running(0, m));
    RunOne(arch, code, Running(1, m));
    RunOne(arch, code, Running(2, m));
    RunOne(arch, code, Running(3, m));
    RunAdd(arch, code, Running(0, m), 1, 1);
    RunAdd(arch, code, Running(0, m), 2, 1);
    RunAdd(arch, code, Running(0, m), 3, 1);
  }

  /** Running a compiled function for some steps, given the fuel of the execution it follows. */
  lemma FunctionSimulated<W, S>(arch: Arch<W, S>, name: string, s: Stmt, c: nat, m: Machine<W, S>, fuel: nat)
      returns (n: nat, cfg: Config<W, S>)
    requires Supported(s) && 2 < |m.regs|
    ensures Run(arch, Prologue(name) + BodyCode(s, c), Running(0, m), n) == cfg
    ensures Ends(arch, s, m.store, fuel) ==> Shows(arch, cfg, Exec(arch, s, m.store, fuel))
    ensures !Ends(arch, s, m.store, fuel) ==> cfg.Running? && fuel <= n
  {
    hide Run; hide Step; hide Exec; hide GenStatement;
    var code := Prologue(name) + BodyCode(s, c);
    var k := |GenStatement(s, c).lines|;
    FunctionLabels(name, s, c);
    AtSplit(code, 0, Prologue(name), BodyCode(s, c));
    AtSplit(code, 4, GenStatement(s, c).lines, [Ret]);
    assert [Ret] == [Ret] + [];
    AtLine(code, 4 + k, Ret, []);
    PrologueRuns(arch, code, name, m);
    n, cfg := StatementSimulated(arch, code, 4, s, c, m, fuel);
    RunAdd(arch, code, Running(0, m), 4, n);
    n := 4 + n;
    if Exec(arch, s, m.store, fuel).Next? {
      ReturnLine(arch, code, 4 + k, cfg.m);
      RunAdd(arch, code, Running(0, m), n, 1);
      n, cfg := n + 1, Returned(cfg.m);
    }
  }

  lemma ReturnLine<W, S>(arch: Arch<W, S>, code: seq<Line>, j: nat, m: Machine<W, S>)
    requires j < |code| && code[j] == Ret
    ensures Run(arch, code, Running(j, m), 1) == Returned(m)
  {
    RunOne(arch, code, Running(j, m));
  }

  /** A machine that has returned stays as it is. */
  lemma HaltedStays<W, S>(arch: Arch<W, S>, code: seq<Line>, start: Config<W, S>, n: nat, k: nat)
    requires Run(arch, code, start, n).Returned? && n <= k
    ensures Run(arch, code, start, k) == Run(arch, code, start, n)
  {
    RunAdd(arch, code, start, n, k - n);
    ReturnedStays(arch, code, Run(arch, code, start, n), k - n);
  }

  /**
    A compiled function halts exactly when the execution of its body ends, and then in the
    store, and with the returned value in r1, that the execution ends with.
   */
  lemma FunctionCorrect<W, S>(arch: Arch<W, S>, name: string, s: Stmt, c: nat, m: Machine<W, S>)
    requires Supported(s) && 2 < |m.regs|
    ensures (exists n: nat :: Halts(arch, Prologue(name) + BodyCode(s, c), m, n))
       <==> (exists fuel: nat :: Ends(arch, s, m.store, fuel))
    ensures forall n: nat, fuel: nat ::
      Halts(arch, Prologue(name) + BodyCode(s, c), m, n) && Ends(arch, s, m.store, fuel)
      ==> Shows(arch, Run(arch, Prologue(name) + BodyCode(s, c), Running(0, m), n), Exec(arch, s, m.store, fuel))
  {
    hide Run; hide Exec;
    var code := Prologue(name) + BodyCode(s, c);
    forall fuel: nat | Ends(arch, s, m.store, fuel) ensures exists n: nat :: Halts(arch, code, m, n) {
      var n, cfg := FunctionSimulated(arch, name, s, c, m, fuel);
      assert Halts(arch, code, m, n);
    }
    forall n: nat | Halts(arch, code, m, n) ensures Ends(arch, s, m.store, n + 1) {
      var k, cfg := FunctionSimulated(arch, name, s, c, m, n + 1);
      if !Ends(arch, s, m.store, n + 1) { HaltedStays(arch, code, Running(0, m), n, k); }
    }
    forall n: nat, fuel: nat | Halts(arch, code, m, n) && Ends(arch, s, m.store, fuel)
      ensures Shows(arch, Run(arch, code, Running(0, m), n), Exec(arch, s, m.store, fuel))
    {
      var k, cfg := FunctionSimulated(arch, name, s, c, m, fuel);
      if n <= k { HaltedStays(arch, code, Running(0, m), n, k); } else { HaltedStays(arch, code, Running(0, m), k, n); }
    }
  }
}
