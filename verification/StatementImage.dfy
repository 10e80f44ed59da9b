/**
  What the statement parser can return, on every token stream: printable statements, in
  which each `else` belongs to the nearest `if` that could take it.
 */
module StatementImage {
  import opened Ast
  import opened Grammar
  import opened Listing
  import opened ExpressionTheorems
  import opened ExpressionImage
  import opened StatementTheorems

  /** A printable statement that leaves no `else` it could have taken. */
  predicate Settled(r: Parsed<Stmt>) {
    r.Ok? ==> PrintableStmt(r.value) && (EndsOpen(r.value) ==> Peek(r.rest) != ELSE)
  }

  lemma ParenthesizedPrintable(ts: seq<Token>)
    ensures ParseParenthesized(ts).Ok? ==> Printable(ParseParenthesized(ts).value)
  {
    if ts != [] { AssignmentPrintable(ts[1..]); }
  }

  lemma OptionPrintable(stop: TokenKind, ts: seq<Token>)
    requires stop != END
    ensures ParseOptional(stop, ts).Ok? ==> PrintableOption(ParseOptional(stop, ts).value)
  {
    AssignmentPrintable(ts);
  }

  lemma {:induction false} DeclaratorKeepsBase(t: CType, ts: seq<Token>)
    ensures DeclaratorFrom(t, ts).0.base == t.base && DeclaratorFrom(t, ts).0.arraySize == t.arraySize
    decreases |ts|
  {
    if Peek(ts) == STAR { DeclaratorKeepsBase(t.(pointerDepth := t.pointerDepth + 1), ts[1..]); }
  }

  lemma {:induction false} ParamsPrintable(ps: seq<Param>, ts: seq<Token>)
    requires forall p | p in ps :: PrintableParam(p)
    ensures ParamsFrom(ps, ts).Ok? ==> forall p | p in ParamsFrom(ps, ts).value :: PrintableParam(p)
    decreases |ts|
  {
    TypeSpecIsSpecified(NoFlags, ts);
    var t := ParseTypeSpec(ts);
    if t.Ok? {
      DeclaratorKeepsBase(t.value, t.rest);
      var (t', name, r) := DeclaratorFrom(t.value, t.rest);
      var p := Param(if name.Some? then name.value else "", t');
      if Peek(r) == COMMA { ParamsPrintable(ps + [p], r[1..]); }
    }
  }

  lemma VariablePrintable(t: CType, name: string, isExtern: bool, isStatic: bool, ts: seq<Token>)
    requires SpecifiedBase(t.base) && t.arraySize == 0
    ensures var r := ParseVariableDecl(t, name, isExtern, isStatic, ts);
      r.Ok? ==> r.value.VariableDecl? && PrintableStmt(r.value)
  {
    var a := ParseArraySuffix(t, ts);
    if a.Ok? {
      assert FitsInt32(a.value.arraySize);
      if Peek(a.rest) == EQ { AssignmentPrintable(a.rest[1..]); }
    }
  }

  lemma {:induction false} DeclarationPrintable(ts: seq<Token>)
    ensures Settled(ParseDeclaration(ts))
    ensures ParseDeclaration(ts).Ok? ==> IsDeclaration(ParseDeclaration(ts).value)
    decreases |ts|, 3
  {
    var r1 := MatchFlag(STATIC, MatchFlag(EXTERN, ts).1);
    TypeSpecIsSpecified(NoFlags, r1.1);
    var t := ParseTypeSpec(r1.1);
    if t.Ok? {
      var isExtern, isStatic := MatchFlag(EXTERN, ts).0, r1.0;
      if Peek(t.rest) == IDENT {
        if Peek(t.rest[1..]) == LPAREN {
          FunctionPrintable(t.value, t.rest[0].text, t.rest[1..]);
        } else {
          VariablePrintable(t.value, t.rest[0].text, isExtern, isStatic, t.rest[1..]);
        }
      } else {
        DeclaratorKeepsBase(t.value, t.rest);
        var (t', name, r) := DeclaratorFrom(t.value, t.rest);
        if name.Some? { VariablePrintable(t', name.value, isExtern, isStatic, r); }
      }
    }
  }

  lemma {:induction false} FunctionPrintable(t: CType, name: string, ts: seq<Token>)
    requires SpecifiedType(t)
    ensures var r := ParseFunctionDef(t, name, ts); r.Ok? ==> r.value.FunctionDef? && PrintableStmt(r.value)
    decreases |ts|, 2
  {
    if Peek(ts) == LPAREN {
      ParamsPrintable([], ts[1..]);
      var params := if Peek(ts[1..]) != RPAREN then ParamsFrom([], ts[1..]) else Ok([], ts[1..]);
      if params.Ok? && Peek(params.rest) == RPAREN { BlockPrintable(params.rest[1..]); }
    }
  }

  lemma {:induction false} BlockPrintable(ts: seq<Token>)
    ensures var r := ParseBlock(ts); r.Ok? ==> r.value.Block? && PrintableStmt(r.value)
    decreases |ts|, 1
  {
    if Peek(ts) == LBRACE { StmtsPrintable([], ts[1..]); }
  }

  lemma {:induction false} StmtsPrintable(ss: seq<Stmt>, ts: seq<Token>)
    requires forall s | s in ss :: PrintableStmt(s)
    ensures var r := StmtsFrom(ss, ts); r.Ok? ==> forall s | s in r.value :: PrintableStmt(s)
    decreases |ts|, 6
  {
    if Peek(ts) != RBRACE && Peek(ts) != END {
      StatementPrintable(ts);
      var s := ParseStatement(ts);
      if s.Ok? { StmtsPrintable(ss + [s.value], s.rest); }
    }
  }

  /** Every statement the parser returns is printable and has taken any `else` it could take. */
  lemma {:induction false} StatementPrintable(ts: seq<Token>)
    ensures Settled(ParseStatement(ts))
    decreases |ts|, 5
  {
    var k := Peek(ts);
    if k == LBRACE { BlockPrintable(ts); }
    else if k == IF { IfPrintable(ts); }
    else if k == WHILE || k == FOR || k == DO { LoopPrintable(ts); }
    else if k == RETURN { OptionPrintable(SEMICOLON, ts[1..]); }
    else if StartsDeclaration(k) { DeclarationIsStatement(ts); DeclarationPrintable(ts); }
    else { AssignmentPrintable(ts); }
  }

  lemma {:induction false} IfPrintable(ts: seq<Token>)
    requires Peek(ts) == IF
    ensures Settled(ParseIf(ts))
    decreases |ts|, 1
  {
    ParenthesizedPrintable(ts[1..]);
    var c := ParseParenthesized(ts[1..]);
    if c.Ok? {
      StatementPrintable(c.rest);
      var t := ParseStatement(c.rest);
      if t.Ok? && Peek(t.rest) == ELSE { StatementPrintable(t.rest[1..]); }
    }
  }

  lemma {:induction false} LoopPrintable(ts: seq<Token>)
    requires Peek(ts) == WHILE || Peek(ts) == FOR || Peek(ts) == DO
    ensures Settled(ParseStatement(ts))
    decreases |ts|, 4
  {
    if Peek(ts) == FOR {
      ForPrintable(ts);
    } else if Peek(ts) == WHILE {
      ParenthesizedPrintable(ts[1..]);
      var c := ParseParenthesized(ts[1..]);
      if c.Ok? { StatementPrintable(c.rest); }
    } else {
      StatementPrintable(ts[1..]);
      var b := ParseStatement(ts[1..]);
      if b.Ok? && Peek(b.rest) == WHILE { ParenthesizedPrintable(b.rest[1..]); }
    }
  }

  lemma {:induction false} ForPrintable(ts: seq<Token>)
    requires Peek(ts) == FOR
    ensures Settled(ParseFor(ts))
    decreases |ts|, 1
  {
    if Peek(ts[1..]) == LPAREN {
      var r1 := ts[1..][1..];
      OptionPrintable(SEMICOLON, r1);
      var i := ParseOptional(SEMICOLON, r1);
      if i.Ok? {
        OptionPrintable(SEMICOLON, i.rest);
        var c := ParseOptional(SEMICOLON, i.rest);
        if c.Ok? {
          OptionPrintable(RPAREN, c.rest);
          var n := ParseOptional(RPAREN, c.rest);
          if n.Ok? { StatementPrintable(n.rest); }
        }
      }
    }
  }

  lemma {:induction false} DeclsPrintable(ds: seq<Stmt>, ts: seq<Token>)
    requires forall d | d in ds :: IsDeclaration(d) && PrintableStmt(d)
    ensures var r := DeclsFrom(ds, ts); r.Ok? ==> forall d | d in r.value :: IsDeclaration(d) && PrintableStmt(d)
    decreases |ts|
  {
    if Peek(ts) != END {
      DeclarationPrintable(ts);
      var d := ParseDeclaration(ts);
      if d.Ok? { DeclsPrintable(ds + [d.value], d.rest); }
    }
  }

  /** The programs the parser can return are exactly the lists of printable declarations. */
  lemma ProgramImage(ds: seq<Stmt>)
    ensures (forall d | d in ds :: IsDeclaration(d) && PrintableStmt(d))
       <==> exists ts: seq<Token> :: ParseProgram(ts).Ok? && ParseProgram(ts).value == ds
  {
    if forall d | d in ds :: IsDeclaration(d) && PrintableStmt(d) {
      ProgramParses(ds);
      assert ParseProgram(ListStmts(ds, [])).Ok?;
    }
    forall ts: seq<Token> | ParseProgram(ts).Ok? && ParseProgram(ts).value == ds
      ensures forall d | d in ds :: IsDeclaration(d) && PrintableStmt(d)
    {
      DeclsPrintable([], ts);
    }
  }
}
