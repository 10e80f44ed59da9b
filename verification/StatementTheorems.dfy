/**
  Parsing statements, declarations and whole programs inverts listing them; an `else`
  always joins the nearest `if` that can take it.
 */
module StatementTheorems {
  import opened Ast
  import opened Grammar
  import opened Listing
  import opened ExpressionTheorems
  import opened ExpressionImage

  /** The statement ends in an `if` that would take an `else` coming next. */
  predicate EndsOpen(s: Stmt) {
    match s
    case If(_, _, None) => true
    case If(_, _, Some(e)) => EndsOpen(e)
    case While(_, body) => EndsOpen(body)
    case For(_, _, _, body) => EndsOpen(body)
    case _ => false
  }

  predicate PrintableOption(e: Option<Expr>) { e.Some? ==> Printable(e.value) }

  predicate FitsInt32(n: int) { -0x8000_0000 <= n < 0x8000_0000 }

  predicate PrintableParam(p: Param) { SpecifiedBase(p.ptype.base) && p.ptype.arraySize == 0 }

  /** The statements the grammar has: no open `if` is the branch before an `else`. */
  predicate PrintableStmt(s: Stmt)
    decreases s
  {
    match s
    case Block(ss) => forall x | x in ss :: PrintableStmt(x)
    case If(c, t, e) =>
      Printable(c) && PrintableStmt(t) && (e.Some? ==> !EndsOpen(t) && PrintableStmt(e.value))
    case While(c, b) => Printable(c) && PrintableStmt(b)
    case For(i, c, n, b) => PrintableOption(i) && PrintableOption(c) && PrintableOption(n) && PrintableStmt(b)
    case DoWhile(b, c) => PrintableStmt(b) && Printable(c)
    case Return(e) => PrintableOption(e)
    case ExprStmt(e) => Printable(e)
    case VariableDecl(_, t, i, _, _) => SpecifiedBase(t.base) && FitsInt32(t.arraySize) && PrintableOption(i)
    case FunctionDef(_, t, ps, b) =>
      SpecifiedType(t) && (forall p | p in ps :: PrintableParam(p))
        && (b.Some? ==> b.value.Block? && PrintableStmt(b.value))
    case _ => true
  }

  // ---- listings ----

  function ListOption(e: Option<Expr>, rest: seq<Token>): seq<Token> {
    if e.Some? then List(e.value, rest) else rest
  }

  /** An expression statement; one whose listing starts with inline assembly is grouped. */
  function ListExprStmt(e: Expr, rest: seq<Token>): seq<Token> {
    if Peek(List(e, rest)) == INLINE_ASM then ListGrouped(e, rest) else List(e, rest)
  }

  function ListStars(n: nat, rest: seq<Token>): seq<Token> {
    if n == 0 then rest else Cons(STAR, ListStars(n - 1, rest))
  }

  /** The specifier part of a declared type. */
  function SpecPart(t: CType): CType { t.(pointerDepth := 0, arraySize := 0) }

  function ListArraySize(n: int, rest: seq<Token>): seq<Token> {
    if n == 0 then rest
    else Cons(LBRACKET, [Token(NUMBER, "", n % 0x1_0000_0000)] + Cons(RBRACKET, rest))
  }

  function ListInitializer(e: Option<Expr>, rest: seq<Token>): seq<Token> {
    if e.Some? then Cons(EQ, List(e.value, rest)) else rest
  }

  function ListVariable(s: Stmt, rest: seq<Token>): seq<Token>
    requires s.VariableDecl?
  {
    ListType(SpecPart(s.vtype),
      ListStars(s.vtype.pointerDepth,
        ConsName(s.name, ListArraySize(s.vtype.arraySize, ListInitializer(s.initializer, Cons(SEMICOLON, rest))))))
  }

  function ListParam(p: Param, rest: seq<Token>): seq<Token> {
    ListType(SpecPart(p.ptype),
      ListStars(p.ptype.pointerDepth, if p.name == "" then rest else ConsName(p.name, rest)))
  }

  function ListParams(ps: seq<Param>, rest: seq<Token>): seq<Token> {
    if ps == [] then rest
    else if |ps| == 1 then ListParam(ps[0], rest)
    else ListParam(ps[0], Cons(COMMA, ListParams(ps[1..], rest)))
  }

  function ListStmt(s: Stmt, rest: seq<Token>): seq<Token>
    decreases s
  {
    match s
    case Block(ss) => Cons(LBRACE, ListStmts(ss, Cons(RBRACE, rest)))
    case If(c, t, e) =>
      var branches := if e.Some? then ListStmt(t, Cons(ELSE, ListStmt(e.value, rest))) else ListStmt(t, rest);
      Cons(IF, Cons(LPAREN, List(c, Cons(RPAREN, branches))))
    case While(c, b) => Cons(WHILE, Cons(LPAREN, List(c, Cons(RPAREN, ListStmt(b, rest)))))
    case For(i, c, n, b) =>
      Cons(FOR, Cons(LPAREN,
        ListOption(i, Cons(SEMICOLON, ListOption(c, Cons(SEMICOLON, ListOption(n, Cons(RPAREN, ListStmt(b, rest)))))))))
    case DoWhile(b, c) =>
      Cons(DO, ListStmt(b, Cons(WHILE, Cons(LPAREN, List(c, Cons(RPAREN, Cons(SEMICOLON, rest)))))))
    case Return(e) => Cons(RETURN, ListOption(e, Cons(SEMICOLON, rest)))
    case Break => Cons(BREAK, Cons(SEMICOLON, rest))
    case Continue => Cons(CONTINUE, Cons(SEMICOLON, rest))
    case Empty => Cons(SEMICOLON, rest)
    case AsmStmt(code) => [Token(INLINE_ASM, code, 0)] + Cons(SEMICOLON, rest)
    case ExprStmt(e) => ListExprStmt(e, Cons(SEMICOLON, rest))
    case VariableDecl(_, _, _, isExtern, isStatic) =>
      ConsIf(isExtern, EXTERN, ConsIf(isStatic, STATIC, ListVariable(s, rest)))
    case FunctionDef(name, t, ps, b) =>
      var body := if b.Some? then ListStmt(b.value, rest) else Cons(SEMICOLON, rest);
      ListType(t, ConsName(name, Cons(LPAREN, ListParams(ps, Cons(RPAREN, body)))))
  }

  function ListStmts(ss: seq<Stmt>, rest: seq<Token>): seq<Token>
    decreases ss
  {
    if ss == [] then rest else ListStmt(ss[0], ListStmts(ss[1..], rest))
  }

  // ---- first tokens ----

  lemma TypeStarts(t: CType, rest: seq<Token>)
    requires SpecifiedType(t)
    ensures StartsDeclaration(Peek(ListType(t, rest)))
    ensures Peek(ListType(t, rest)) != STATIC && Peek(ListType(t, rest)) != EXTERN
  {
  }

  lemma StatementStarts(s: Stmt, rest: seq<Token>)
    requires PrintableStmt(s)
    ensures var k := Peek(ListStmt(s, rest)); k != RBRACE && k != END && k != ELSE
    ensures s.VariableDecl? || s.FunctionDef? ==> StartsDeclaration(Peek(ListStmt(s, rest)))
    ensures s.ExprStmt? ==> var k := Peek(ListStmt(s, rest)); StartsExpression(k) && k != INLINE_ASM
  {
    match s
    case ExprStmt(e) => ListingStarts(e, Cons(SEMICOLON, rest));
    case VariableDecl(_, t, i, _, _) =>
      TypeStarts(SpecPart(t), ListVariable(s, rest)[|ListVariable(s, rest)|..]);
      var after := ListStars(t.pointerDepth,
        ConsName(s.name, ListArraySize(t.arraySize, ListInitializer(i, Cons(SEMICOLON, rest)))));
      TypeStarts(SpecPart(t), after);
    case FunctionDef(name, t, ps, b) =>
      var body := if b.Some? then ListStmt(b.value, rest) else Cons(SEMICOLON, rest);
      TypeStarts(t, ConsName(name, Cons(LPAREN, ListParams(ps, Cons(RPAREN, body)))));
    case _ =>
  }

  // ---- declarations ----

  lemma {:induction false} StarsParse(n: nat, t: CType, rest: seq<Token>)
    requires Peek(rest) != STAR
    ensures DeclaratorFrom(t, ListStars(n, rest)) ==
            DeclaratorFrom(t.(pointerDepth := t.pointerDepth + n), rest)
  {
    if n > 0 {
      var t' := t.(pointerDepth := t.pointerDepth + 1);
      StarsParse(n - 1, t', rest);
      assert t'.(pointerDepth := t'.pointerDepth + (n - 1)) == t.(pointerDepth := t.pointerDepth + n);
    } else {
      assert t.(pointerDepth := t.pointerDepth + 0) == t;
    }
  }

  lemma ArraySizeParses(t: CType, n: int, rest: seq<Token>)
    requires FitsInt32(n) && t.arraySize == 0 && Peek(rest) != LBRACKET
    ensures ParseArraySuffix(t, ListArraySize(n, rest)) == Ok(t.(arraySize := n), rest)
  {
    if n == 0 {
      assert t.(arraySize := 0) == t;
    } else {
      var size := [Token(NUMBER, "", n % 0x1_0000_0000)] + Cons(RBRACKET, rest);
      assert ListArraySize(n, rest)[1..] == size && ListArraySize(n, rest)[2..] == Cons(RBRACKET, rest);
      assert ToInt32(n % 0x1_0000_0000) == n;
    }
  }

  lemma VariableParses(s: Stmt, t: CType, rest: seq<Token>)
    requires s.VariableDecl? && PrintableStmt(s) && t == s.vtype.(arraySize := 0)
    ensures var ts := ListArraySize(s.vtype.arraySize, ListInitializer(s.initializer, Cons(SEMICOLON, rest)));
      ParseVariableDecl(t, s.name, s.isExtern, s.isStatic, ts) == Ok(s, rest)
      && Peek(ts) != LPAREN
  {
    var end := Cons(SEMICOLON, rest);
    ArraySizeParses(t, s.vtype.arraySize, ListInitializer(s.initializer, end));
    if s.initializer.Some? {
      AssignmentPrintable(List(s.initializer.value, end));
      ExpressionListing(s.initializer.value, end);
    }
  }

  lemma VariableDeclarationParses(s: Stmt, rest: seq<Token>)
    requires s.VariableDecl? && PrintableStmt(s)
    ensures ParseDeclaration(ListStmt(s, rest)) == Ok(s, rest)
  {
    var ts := ListArraySize(s.vtype.arraySize, ListInitializer(s.initializer, Cons(SEMICOLON, rest)));
    var named := ConsName(s.name, ts);
    var declarator := ListStars(s.vtype.pointerDepth, named);
    var spec := SpecPart(s.vtype);
    TypeParses(spec, declarator);
    TypeStarts(spec, declarator);
    StarsParse(s.vtype.pointerDepth, spec, named);
    var t := s.vtype.(arraySize := 0);
    assert spec.(pointerDepth := spec.pointerDepth + s.vtype.pointerDepth) == t;
    VariableParses(s, t, rest);
    FlagsParse(s.isExtern, s.isStatic, ListVariable(s, rest));
  }

  lemma FlagsParse(isExtern: bool, isStatic: bool, ts: seq<Token>)
    requires Peek(ts) != STATIC && Peek(ts) != EXTERN
    ensures var all := ConsIf(isExtern, EXTERN, ConsIf(isStatic, STATIC, ts));
      var (e, r) := MatchFlag(EXTERN, all);
      var (s, r') := MatchFlag(STATIC, r);
      e == isExtern && s == isStatic && r' == ts
  {
  }

  lemma ParamParses(p: Param, rest: seq<Token>)
    requires PrintableParam(p) && (Peek(rest) == COMMA || Peek(rest) == RPAREN)
    ensures var t := ParseTypeSpec(ListParam(p, rest));
      t.Ok? &&
      var (t', name, r) := DeclaratorFrom(t.value, t.rest);
      Param(if name.Some? then name.value else "", t') == p && r == rest
  {
    var named := if p.name == "" then rest else ConsName(p.name, rest);
    TypeParses(SpecPart(p.ptype), ListStars(p.ptype.pointerDepth, named));
    StarsParse(p.ptype.pointerDepth, SpecPart(p.ptype), named);
    assert SpecPart(p.ptype).(pointerDepth := 0 + p.ptype.pointerDepth) == p.ptype;
  }

  lemma {:induction false} ParamsParse(ps: seq<Param>, before: seq<Param>, rest: seq<Token>)
    requires ps != [] && (forall p | p in ps :: PrintableParam(p)) && Peek(rest) == RPAREN
    ensures ParamsFrom(before, ListParams(ps, rest)) == Ok(before + ps, rest)
    ensures Peek(ListParams(ps, rest)) != RPAREN
  {
    hide ParseTypeSpec; hide DeclaratorFrom; hide ListParam; hide PrintableParam; hide ParamsFrom;
    var p := ps[0];
    if |ps| == 1 {
      ParamParses(p, rest);
      ParamStarts(p, rest);
      ParamsStep(before, ListParam(p, rest), p, rest);
      assert before + [p] == before + ps;
    } else {
      var more := Cons(COMMA, ListParams(ps[1..], rest));
      ParamParses(p, more);
      ParamStarts(p, more);
      ParamsStep(before, ListParam(p, more), p, more);
      ParamsParse(ps[1..], before + [p], rest);
      assert more[1..] == ListParams(ps[1..], rest);
      assert before + [p] + ps[1..] == before + ps;
    }
  }

  lemma ParamStarts(p: Param, rest: seq<Token>)
    requires PrintableParam(p)
    ensures Peek(ListParam(p, rest)) != RPAREN
  {
    TypeStarts(SpecPart(p.ptype),
      ListStars(p.ptype.pointerDepth, if p.name == "" then rest else ConsName(p.name, rest)));
  }

  lemma ParamsStep(before: seq<Param>, ts: seq<Token>, p: Param, rest: seq<Token>)
    requires ParseTypeSpec(ts).Ok?
    requires var (t', name, r) := DeclaratorFrom(ParseTypeSpec(ts).value, ParseTypeSpec(ts).rest);
      Param(if name.Some? then name.value else "", t') == p && r == rest
    ensures ParamsFrom(before, ts) == if Peek(rest) == COMMA then ParamsFrom(before + [p], rest[1..])
      else Ok(before + [p], rest)
  {
    hide ParseTypeSpec; hide DeclaratorFrom;
  }

  // ---- statements ----

  lemma ParenthesizedParses(c: Expr, rest: seq<Token>)
    requires Printable(c)
    ensures ParseParenthesized(Cons(LPAREN, List(c, Cons(RPAREN, rest)))) == Ok(c, rest)
  {
    ExpressionListing(c, Cons(RPAREN, rest));
  }

  lemma OptionParses(e: Option<Expr>, stop: TokenKind, rest: seq<Token>)
    requires PrintableOption(e) && (stop == SEMICOLON || stop == RPAREN)
    ensures ParseOptional(stop, ListOption(e, Cons(stop, rest))) == Ok(e, rest)
  {
    if e.Some? {
      ExpressionListing(e.value, Cons(stop, rest));
      ListingStarts(e.value, Cons(stop, rest));
    }
  }

  /** An expression statement that would start like inline assembly is bracketed. */
  lemma ExprStmtReads(e: Expr, end: seq<Token>)
    requires Printable(e) && Peek(end) == SEMICOLON
    ensures ParseExpression(ListExprStmt(e, end)) == Ok(e, end)
  {
    hide List; hide ParseExpression; hide ParseLevel;
    var ts := ListExprStmt(e, end);
    if Peek(List(e, end)) == INLINE_ASM {
      GroupListing(e, end);
      assert ParseCast(ts) == Ok(e, end);
      LevelsStop(0, ts, e, end);
      ExpressionIsLevel(ts, e, end);
    } else {
      ExpressionListing(e, end);
    }
  }

  lemma ExpressionIsLevel(ts: seq<Token>, e: Expr, end: seq<Token>)
    requires ParseLevel(0, ts) == Ok(e, end) && Peek(end) == SEMICOLON
    ensures ParseExpression(ts) == Ok(e, end)
  {
    hide ParseLevel;
  }

  lemma ExprStmtParses(e: Expr, rest: seq<Token>)
    requires Printable(e)
    ensures ParseStatement(ListStmt(ExprStmt(e), rest)) == Ok(ExprStmt(e), rest)
  {
    hide List; hide ParseExpression; hide ListExprStmt;
    var end := Cons(SEMICOLON, rest);
    StatementStarts(ExprStmt(e), rest);
    var ts := ListExprStmt(e, end);
    ExprStmtReads(e, end);
    assert ParseStatement(ts) == ParseDeclarationOrExpression(ts);
  }

  lemma {:induction false} LevelsStop(k: nat, ts: seq<Token>, e: Expr, after: seq<Token>)
    requires k <= 10 && ParseCast(ts) == Ok(e, after) && Stops(0, after)
    ensures ParseLevel(k, ts) == Ok(e, after)
    decreases 10 - k
  {
    if k < 10 { LevelsStop(k + 1, ts, e, after); }
  }

  lemma {:induction false} StatementParses(s: Stmt, rest: seq<Token>)
    requires PrintableStmt(s) && (EndsOpen(s) ==> Peek(rest) != ELSE)
    ensures ParseStatement(ListStmt(s, rest)) == Ok(s, rest)
    decreases s, 2
  {
    hide ParseStatement; hide ListStmt;
    match s
    case Block(ss) =>
      BlockParses(ss, rest);
      BlockIsStatement(ss, rest);
    case If(_, _, _) => IfParses(s, rest);
    case While(_, _) => LoopParses(s, rest);
    case DoWhile(_, _) => LoopParses(s, rest);
    case For(i, c, n, b) =>
      StatementParses(b, rest);
      ForParses(i, c, n, b, rest);
      ForIsStatement(i, c, n, b, rest);
    case ExprStmt(e) => ExprStmtParses(e, rest);
    case VariableDecl(_, _, _, _, _) => DeclarationParses(s, rest);
    case FunctionDef(_, _, _, _) => DeclarationParses(s, rest);
    case _ => JumpParses(s, rest);
  }

  lemma BlockIsStatement(ss: seq<Stmt>, rest: seq<Token>)
    ensures var ts := ListStmt(Block(ss), rest); ParseStatement(ts) == ParseBlock(ts)
  {
    hide ParseBlock; hide ListStmts;
  }

  lemma ForIsStatement(i: Option<Expr>, c: Option<Expr>, n: Option<Expr>, b: Stmt, rest: seq<Token>)
    ensures var ts := ListStmt(For(i, c, n, b), rest); ParseStatement(ts) == ParseFor(ts)
  {
    hide ParseFor; hide ListOption;
  }

  lemma JumpParses(s: Stmt, rest: seq<Token>)
    requires PrintableStmt(s) && (s.Return? || s.Break? || s.Continue? || s.Empty? || s.AsmStmt?)
    ensures ParseStatement(ListStmt(s, rest)) == Ok(s, rest)
  {
    if s.Return? {
      OptionParses(s.result, SEMICOLON, rest);
      assert ParseStatement(ListStmt(s, rest)) == ParseReturn(ListStmt(s, rest));
    }
  }

  lemma DeclarationIsStatement(ts: seq<Token>)
    requires StartsDeclaration(Peek(ts))
    ensures ParseStatement(ts) == ParseDeclaration(ts)
  {
  }

  /** A declaration is read back, at top level and as a statement. */
  lemma {:induction false} DeclarationParses(s: Stmt, rest: seq<Token>)
    requires PrintableStmt(s) && IsDeclaration(s)
    ensures ParseDeclaration(ListStmt(s, rest)) == Ok(s, rest)
    ensures ParseStatement(ListStmt(s, rest)) == Ok(s, rest)
    decreases s, 1
  {
    StatementStarts(s, rest);
    DeclarationIsStatement(ListStmt(s, rest));
    if s.VariableDecl? { VariableDeclarationParses(s, rest); } else { FunctionParses(s, rest); }
  }

  lemma {:induction false} LoopParses(s: Stmt, rest: seq<Token>)
    requires (s.While? || s.DoWhile?) && PrintableStmt(s) && (EndsOpen(s) ==> Peek(rest) != ELSE)
    ensures ParseStatement(ListStmt(s, rest)) == Ok(s, rest)
    decreases s, 1
  {
    var end := if s.While? then ListStmt(s.body, rest) else Cons(SEMICOLON, rest);
    var tail := Cons(LPAREN, List(s.cond, Cons(RPAREN, end)));
    ParenthesizedParses(s.cond, end);
    StatementParses(s.body, if s.While? then rest else Cons(WHILE, tail));
    if s.While? {
      assert ParseStatement(ListStmt(s, rest)) == ParseWhile(Cons(WHILE, tail));
    } else {
      assert ParseStatement(ListStmt(s, rest)) == ParseDoWhile(Cons(DO, ListStmt(s.body, Cons(WHILE, tail))));
    }
  }

  lemma {:induction false} IfParses(s: Stmt, rest: seq<Token>)
    requires s.If? && PrintableStmt(s) && (EndsOpen(s) ==> Peek(rest) != ELSE)
    ensures ParseStatement(ListStmt(s, rest)) == Ok(s, rest)
    decreases s, 1
  {
    var after := if s.elseBody.Some? then Cons(ELSE, ListStmt(s.elseBody.value, rest)) else rest;
    ParenthesizedParses(s.cond, ListStmt(s.thenBody, after));
    StatementParses(s.thenBody, after);
    if s.elseBody.Some? { StatementParses(s.elseBody.value, rest); }
    assert ParseStatement(ListStmt(s, rest)) == ParseIf(ListStmt(s, rest));
  }

  lemma ForParses(i: Option<Expr>, c: Option<Expr>, n: Option<Expr>, b: Stmt, rest: seq<Token>)
    requires PrintableOption(i) && PrintableOption(c) && PrintableOption(n)
    requires ParseStatement(ListStmt(b, rest)) == Ok(b, rest)
    ensures ParseFor(ListStmt(For(i, c, n, b), rest)) == Ok(For(i, c, n, b), rest)
  {
    var r4 := ListStmt(b, rest);
    var r3 := ListOption(n, Cons(RPAREN, r4));
    var r2 := ListOption(c, Cons(SEMICOLON, r3));
    OptionParses(n, RPAREN, r4);
    OptionParses(c, SEMICOLON, r3);
    OptionParses(i, SEMICOLON, r2);
  }

  lemma {:induction false} BlockParses(ss: seq<Stmt>, rest: seq<Token>)
    requires forall x | x in ss :: PrintableStmt(x)
    ensures ParseBlock(ListStmt(Block(ss), rest)) == Ok(Block(ss), rest)
    decreases ss, 1
  {
    StmtsParse(ss, [], Cons(RBRACE, rest));
    assert [] + ss == ss;
  }

  lemma {:induction false} StmtsParse(ss: seq<Stmt>, before: seq<Stmt>, rest: seq<Token>)
    requires (forall x | x in ss :: PrintableStmt(x)) && Peek(rest) == RBRACE
    ensures StmtsFrom(before, ListStmts(ss, rest)) == Ok(before + ss, rest)
    ensures Peek(ListStmts(ss, rest)) != ELSE
    decreases ss, 0
  {
    hide ParseStatement; hide ListStmt;
    if ss != [] {
      var more := ListStmts(ss[1..], rest);
      StatementStarts(ss[0], more);
      StmtsParse(ss[1..], before + [ss[0]], rest);
      StatementParses(ss[0], more);
      assert before + [ss[0]] + ss[1..] == before + ss;
    } else {
      assert before + ss == before;
    }
  }

  lemma {:induction false} FunctionParses(s: Stmt, rest: seq<Token>)
    requires s.FunctionDef? && PrintableStmt(s)
    ensures ParseDeclaration(ListStmt(s, rest)) == Ok(s, rest)
    decreases s, 0
  {
    var body := if s.funcBody.Some? then ListStmt(s.funcBody.value, rest) else Cons(SEMICOLON, rest);
    var signature := Cons(LPAREN, ListParams(s.params, Cons(RPAREN, body)));
    var named := ConsName(s.name, signature);
    TypeParses(s.returnType, named);
    TypeStarts(s.returnType, named);
    if s.funcBody.Some? { BlockParses(s.funcBody.value.stmts, rest); }
    SignatureParses(s, body, rest);
    assert ParseDeclaration(ListStmt(s, rest)) == ParseFunctionDef(s.returnType, s.name, signature);
  }

  lemma SignatureParses(s: Stmt, body: seq<Token>, rest: seq<Token>)
    requires s.FunctionDef? && (forall p | p in s.params :: PrintableParam(p))
    requires s.funcBody.Some? ==> Peek(body) == LBRACE && ParseBlock(body) == Ok(s.funcBody.value, rest)
    requires s.funcBody.None? ==> body == Cons(SEMICOLON, rest)
    ensures ParseFunctionDef(s.returnType, s.name, Cons(LPAREN, ListParams(s.params, Cons(RPAREN, body))))
      == Ok(s, rest)
  {
    if s.params != [] {
      ParamsParse(s.params, [], Cons(RPAREN, body));
      assert [] + s.params == s.params;
    }
  }

  predicate IsDeclaration(s: Stmt) { s.VariableDecl? || s.FunctionDef? }

  lemma DeclsStep(before: seq<Stmt>, ts: seq<Token>, d: Stmt, rest: seq<Token>)
    requires Peek(ts) != END && ParseDeclaration(ts) == Ok(d, rest)
    ensures DeclsFrom(before, ts) == DeclsFrom(before + [d], rest)
  {
  }

  lemma DeclsEnd(before: seq<Stmt>)
    ensures DeclsFrom(before, []) == Ok(before, [])
  {
  }

  lemma {:induction false} DeclsParse(ds: seq<Stmt>, before: seq<Stmt>)
    requires forall d | d in ds :: IsDeclaration(d) && PrintableStmt(d)
    ensures DeclsFrom(before, ListStmts(ds, [])) == Ok(before + ds, [])
  {
    hide ParseDeclaration; hide ListStmt; hide PrintableStmt; hide IsDeclaration; hide DeclsFrom;
    if ds == [] {
      assert before + ds == before;
      DeclsEnd(before);
    } else {
      var d, more := ds[0], ListStmts(ds[1..], []);
      assert IsDeclaration(d) && PrintableStmt(d);
      StatementStarts(d, more);
      DeclarationParses(d, more);
      DeclsStep(before, ListStmts(ds, []), d, more);
      DeclsParse(ds[1..], before + [d]);
      assert before + [d] + ds[1..] == before + ds;
    }
  }

  /** A whole program is read back from its listing. */
  lemma ProgramParses(ds: seq<Stmt>)
    requires forall d | d in ds :: IsDeclaration(d) && PrintableStmt(d)
    ensures ParseProgram(ListStmts(ds, [])) == Ok(ds, [])
  {
    DeclsParse(ds, []);
    assert [] + ds == ds;
  }
}
