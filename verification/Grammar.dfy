/**
  The language the C parser accepts, as functions from a token suffix to a tree and the
  suffix left over.  `Parser` moves a cursor over the tokens; its methods are proved to
  compute exactly these functions.  Every function returns a suffix no longer than its
  argument, and strictly shorter wherever a tree is produced, so one measure, (tokens left,
  grammar level), bounds the whole mutual recursion on every input.
 */
module Grammar {
  import opened Ast

  datatype ParseError =
    | Expected(kind: TokenKind)
    | UnexpectedToken(text: string)
    | NoIdentifierAfterType

  datatype Parsed<+T> = Ok(value: T, rest: seq<Token>) | Fail(error: ParseError) {
    predicate IsFailure() { Fail? }
    function PropagateFailure<U>(): Parsed<U> requires Fail? { Fail(error) }
    function Extract(): (T, seq<Token>) requires Ok? { (value, rest) }
  }

  // ---- cursor ----

  function Peek(ts: seq<Token>): TokenKind {
    if ts == [] then END else ts[0].kind
  }

  function PeekToken(ts: seq<Token>): Token {
    if ts == [] then Sym(END) else ts[0]
  }

  /** Taking the next token; the end token is never passed. */
  function Advance(ts: seq<Token>): (r: seq<Token>)
    ensures |r| <= |ts|
    ensures Peek(ts) != END ==> |r| == |ts| - 1 && r == ts[1..]
  {
    if Peek(ts) == END then ts else ts[1..]
  }

  function Expect(kind: TokenKind, ts: seq<Token>): (r: Parsed<Token>)
    requires kind != END
    ensures r.Ok? ==> |r.rest| == |ts| - 1
  {
    if Peek(ts) == kind then Ok(ts[0], ts[1..]) else Fail(Expected(kind))
  }

  // ---- types ----

  datatype SpecFlags = SpecFlags(isConst: bool, isVolatile: bool, isUnsigned: bool, isLong: bool)

  /** Ends a type specifier: the base read (NONE when there was none) meets the flags. */
  function FinishType(f: SpecFlags, base: DataType): CType {
    var b := if base == NONE then (if f.isLong then LONG else INT) else base;
    var b' := if f.isUnsigned && b == CHAR then UCHAR
              else if f.isUnsigned && b == INT then UINT
              else if f.isUnsigned && b == LONG then ULONG
              else b;
    CType(b', f.isConst, f.isVolatile, 0, 0)
  }

  function TypeSpecFrom(f: SpecFlags, ts: seq<Token>): (r: Parsed<CType>)
    ensures r.Ok? ==> |r.rest| <= |ts|
    decreases |ts|
  {
    var k := Peek(ts);
    if k == CONST then TypeSpecFrom(f.(isConst := true), ts[1..])
    else if k == VOLATILE then TypeSpecFrom(f.(isVolatile := true), ts[1..])
    else if k == UNSIGNED then TypeSpecFrom(f.(isUnsigned := true), ts[1..])
    else if k == SIGNED then TypeSpecFrom(f, ts[1..])
    else if k == LONG_KW then TypeSpecFrom(f.(isLong := true), ts[1..])
    // the base noted for `short` is overwritten before the type is returned
    else if k == SHORT_KW then Ok(FinishType(f, NONE), ts[1..])
    else if k == VOID_KW then Ok(FinishType(f, VOID), ts[1..])
    else if k == CHAR_KW then Ok(FinishType(f, if f.isUnsigned then UCHAR else CHAR), ts[1..])
    else if k == INT_KW then Ok(FinishType(f, NONE), ts[1..])
    else if k == STRUCT_KW then
      var (_, r) :- Expect(IDENT, ts[1..]);
      Ok(FinishType(f, STRUCT), r)
    else Ok(FinishType(f, NONE), ts)
  }

  const NoFlags := SpecFlags(false, false, false, false)

  function ParseTypeSpec(ts: seq<Token>): (r: Parsed<CType>)
    ensures r.Ok? ==> |r.rest| <= |ts|
  {
    TypeSpecFrom(NoFlags, ts)
  }

  /** A declarator: stars, then perhaps a name. */
  function DeclaratorFrom(t: CType, ts: seq<Token>): (r: (CType, Option<string>, seq<Token>))
    ensures |r.2| <= |ts|
    ensures r.1.Some? ==> |r.2| < |ts|
    decreases |ts|
  {
    if Peek(ts) == STAR then DeclaratorFrom(t.(pointerDepth := t.pointerDepth + 1), ts[1..])
    else if Peek(ts) == IDENT then (t, Some(ts[0].text), ts[1..])
    else (t, None, ts)
  }

  // ---- expressions ----

  predicate IsAssignOp(k: TokenKind) {
    k == EQ || k == PLUS_EQ || k == MINUS_EQ || k == STAR_EQ
  }

  function ParseExpression(ts: seq<Token>): (r: Parsed<Expr>)
    ensures r.Ok? ==> |r.rest| < |ts|
    decreases |ts|, 17
  {
    ParseAssignment(ts)
  }

  function ParseAssignment(ts: seq<Token>): (r: Parsed<Expr>)
    ensures r.Ok? ==> |r.rest| < |ts|
    decreases |ts|, 16
  {
    var (node, r) :- ParseLevel(0, ts);
    if IsAssignOp(Peek(r)) then
      var (value, r') :- ParseAssignment(r[1..]);
      Ok(Assign(node, value), r')
    else Ok(node, r)
  }

  /** Binary level `k`, 0 (`||`) to 9 (`*` `/` `%`); level 10 is the cast level. */
  function ParseLevel(k: nat, ts: seq<Token>): (r: Parsed<Expr>)
    requires k <= 10
    ensures r.Ok? ==> |r.rest| < |ts|
    decreases |ts|, 15 - k
  {
    if k == 10 then ParseCast(ts)
    else
      var (node, r) :- ParseLevel(k + 1, ts);
      LevelTail(k, node, r)
  }

  /** The loop of level `k`: takes operators of that level, nesting to the left. */
  function LevelTail(k: nat, node: Expr, ts: seq<Token>): (r: Parsed<Expr>)
    requires k < 10
    ensures r.Ok? ==> |r.rest| <= |ts|
    decreases |ts|, 0
  {
    if LevelOf(Peek(ts)) == k then
      var (right, r) :- ParseLevel(k + 1, ts[1..]);
      LevelTail(k, Binary(Peek(ts), node, right), r)
    else Ok(node, ts)
  }

  function ParseCast(ts: seq<Token>): (r: Parsed<Expr>)
    ensures r.Ok? ==> |r.rest| < |ts|
    decreases |ts|, 4
  {
    if Peek(ts) == LPAREN then
      var (t, r) :- ParseTypeSpec(ts[1..]);
      if Peek(r) == RPAREN then
        var (e, r') :- ParseCast(r[1..]);
        Ok(Cast(t, e), r')
      else ParseUnary(r)
    else ParseUnary(ts)
  }

  /** Prefix operators that keep their token in the tree. */
  predicate IsPrefixOp(k: TokenKind) {
    k == PLUSPLUS || k == MINUSMINUS || k == MINUS || k == TILDE || k == EXCLAM
  }

  function ParseUnary(ts: seq<Token>): (r: Parsed<Expr>)
    ensures r.Ok? ==> |r.rest| < |ts|
    decreases |ts|, 3
  {
    var k := Peek(ts);
    if IsPrefixOp(k) then
      var (e, r) :- ParseUnary(ts[1..]);
      Ok(Unary(k, e, true), r)
    else if k == AMPER then
      var (e, r) :- ParseUnary(ts[1..]);
      Ok(AddressOf(e), r)
    else if k == STAR then
      var (e, r) :- ParseUnary(ts[1..]);
      Ok(Deref(e), r)
    else if k == PLUS then ParseUnary(ts[1..])
    else if k == SIZEOF then
      var (e, r) :- ParseUnary(ts[1..]);
      Ok(SizeOf(e), r)
    else ParsePostfix(ts)
  }

  function ParsePostfix(ts: seq<Token>): (r: Parsed<Expr>)
    ensures r.Ok? ==> |r.rest| < |ts|
    decreases |ts|, 2
  {
    var (node, r) :- ParsePrimary(ts);
    PostfixTail(node, r)
  }

  function PostfixTail(node: Expr, ts: seq<Token>): (r: Parsed<Expr>)
    ensures r.Ok? ==> |r.rest| <= |ts|
    decreases |ts|, 0
  {
    var k := Peek(ts);
    if k == LPAREN then
      if node.Variable? then
        if Peek(ts[1..]) == RPAREN then PostfixTail(Call(node.name, []), ts[2..])
        else
          var (args, r) :- ArgsFrom([], ts[1..]);
          var (_, r') :- Expect(RPAREN, r);
          PostfixTail(Call(node.name, args), r')
      else PostfixTail(node, ts[1..])
    else if k == LBRACKET then
      var (index, r) :- ParseExpression(ts[1..]);
      var (_, r') :- Expect(RBRACKET, r);
      PostfixTail(Index(node, index), r')
    else if k == DOT then
      var (name, r) :- Expect(IDENT, ts[1..]);
      PostfixTail(Member(node, name.text), r)
    else if k == ARROW then
      var (name, r) :- Expect(IDENT, ts[1..]);
      PostfixTail(Member(Deref(node), name.text), r)
    else if k == PLUSPLUS || k == MINUSMINUS then
      // the operator is read off the token after the matched one, which is taken too
      var op := if Peek(ts[1..]) == PLUSPLUS then PLUSPLUS else MINUSMINUS;
      PostfixTail(Unary(op, node, false), Advance(ts[1..]))
    else Ok(node, ts)
  }

  /** Call arguments, at least one, separated by commas. */
  function ArgsFrom(args: seq<Expr>, ts: seq<Token>): (r: Parsed<seq<Expr>>)
    ensures r.Ok? ==> |r.rest| < |ts|
    decreases |ts|, 18
  {
    var (e, r) :- ParseExpression(ts);
    if Peek(r) == COMMA then ArgsFrom(args + [e], r[1..]) else Ok(args + [e], r)
  }

  function ParsePrimary(ts: seq<Token>): (r: Parsed<Expr>)
    ensures r.Ok? ==> |r.rest| < |ts|
    decreases |ts|, 1
  {
    var k := Peek(ts);
    if k == LPAREN then
      var (e, r) :- ParseExpression(ts[1..]);
      var (_, r') :- Expect(RPAREN, r);
      Ok(e, r')
    else if k == NUMBER || k == CHAR_LIT then Ok(Constant(ts[0].intval), ts[1..])
    else if k == STRING then Ok(StringLit(ts[0].text), ts[1..])
    else if k == IDENT then Ok(Variable(ts[0].text), ts[1..])
    else if k == INLINE_ASM then Ok(Asm(ts[0].text), ts[1..])
    else Fail(UnexpectedToken(PeekToken(ts).text))
  }

  // ---- declarations and statements ----

  /** A 64-bit value converted to a 32-bit signed integer. */
  function ToInt32(v: nat): int {
    var w := v % 0x1_0000_0000;
    if w < 0x8000_0000 then w else w - 0x1_0000_0000
  }

  function MatchFlag(kind: TokenKind, ts: seq<Token>): (r: (bool, seq<Token>))
    requires kind != END
    ensures |r.1| <= |ts|
  {
    if Peek(ts) == kind then (true, ts[1..]) else (false, ts)
  }

  function ParseDeclaration(ts: seq<Token>): (r: Parsed<Stmt>)
    ensures r.Ok? ==> |r.rest| < |ts|
    decreases |ts|, 3
  {
    var (isExtern, r0) := MatchFlag(EXTERN, ts);
    var (isStatic, r1) := MatchFlag(STATIC, r0);
    var (t, r2) :- ParseTypeSpec(r1);
    if Peek(r2) == IDENT then
      if Peek(r2[1..]) == LPAREN then ParseFunctionDef(t, r2[0].text, r2[1..])
      else ParseVariableDecl(t, r2[0].text, isExtern, isStatic, r2[1..])
    else
      var (t', name, r3) := DeclaratorFrom(t, r2);
      if name.Some? then ParseVariableDecl(t', name.value, isExtern, isStatic, r3)
      else Fail(NoIdentifierAfterType)
  }

  function ParseFunctionDef(t: CType, name: string, ts: seq<Token>): (r: Parsed<Stmt>)
    ensures r.Ok? ==> |r.rest| < |ts|
    decreases |ts|, 2
  {
    var (_, r0) :- Expect(LPAREN, ts);
    var (params, r1) :- (if Peek(r0) != RPAREN then ParamsFrom([], r0) else Ok([], r0));
    var (_, r2) :- Expect(RPAREN, r1);
    if Peek(r2) == LBRACE then
      var (body, r3) :- ParseBlock(r2);
      Ok(FunctionDef(name, t, params, Some(body)), r3)
    else
      var (_, r3) :- Expect(SEMICOLON, r2);
      Ok(FunctionDef(name, t, params, None), r3)
  }

  /** Parameters separated by commas; a missing name is the empty one. */
  function ParamsFrom(params: seq<Param>, ts: seq<Token>): (r: Parsed<seq<Param>>)
    ensures r.Ok? ==> |r.rest| <= |ts|
    decreases |ts|
  {
    var (t, r) :- ParseTypeSpec(ts);
    var (t', name, r') := DeclaratorFrom(t, r);
    var p := Param(if name.Some? then name.value else "", t');
    if Peek(r') == COMMA then ParamsFrom(params + [p], r'[1..]) else Ok(params + [p], r')
  }

  function ParseVariableDecl(t: CType, name: string, isExtern: bool, isStatic: bool, ts: seq<Token>): (r: Parsed<Stmt>)
    ensures r.Ok? ==> |r.rest| < |ts|
  {
    var (t', r0) :- ParseArraySuffix(t, ts);
    var (init, r1) :- (if Peek(r0) == EQ then ParseInitializer(r0[1..]) else Ok(None, r0));
    var (_, r2) :- Expect(SEMICOLON, r1);
    Ok(VariableDecl(name, t', init, isExtern, isStatic), r2)
  }

  function ParseArraySuffix(t: CType, ts: seq<Token>): (r: Parsed<CType>)
    ensures r.Ok? ==> |r.rest| <= |ts|
  {
    if Peek(ts) == LBRACKET then
      var sized := Peek(ts[1..]) == NUMBER;
      var t' := if sized then t.(arraySize := ToInt32(ts[1].intval)) else t;
      var (_, r) :- Expect(RBRACKET, if sized then ts[2..] else ts[1..]);
      Ok(t', r)
    else Ok(t, ts)
  }

  function ParseInitializer(ts: seq<Token>): (r: Parsed<Option<Expr>>)
    ensures r.Ok? ==> |r.rest| < |ts|
  {
    var (e, r) :- ParseAssignment(ts);
    Ok(Some(e), r)
  }

  /** Tokens that make `ParseStatement` read a declaration. */
  predicate StartsDeclaration(k: TokenKind) {
    k == INT_KW || k == CHAR_KW || k == SHORT_KW || k == LONG_KW || k == VOID_KW || k == UNSIGNED
    || k == SIGNED || k == STATIC || k == EXTERN || k == STRUCT_KW || k == CONST
  }

  function ParseStatement(ts: seq<Token>): (r: Parsed<Stmt>)
    ensures r.Ok? ==> |r.rest| < |ts|
    decreases |ts|, 5
  {
    var k := Peek(ts);
    if k == LBRACE then ParseBlock(ts)
    else if k == IF then ParseIf(ts)
    else if k == WHILE then ParseWhile(ts)
    else if k == FOR then ParseFor(ts)
    else if k == DO then ParseDoWhile(ts)
    else if k == RETURN then ParseReturn(ts)
    else if k == BREAK then
      var (_, r) :- Expect(SEMICOLON, ts[1..]);
      Ok(Break, r)
    else if k == CONTINUE then
      var (_, r) :- Expect(SEMICOLON, ts[1..]);
      Ok(Continue, r)
    else if k == SEMICOLON then Ok(Empty, ts[1..])
    else if k == INLINE_ASM then
      var (_, r) :- Expect(SEMICOLON, ts[1..]);
      Ok(AsmStmt(ts[0].text), r)
    else ParseDeclarationOrExpression(ts)
  }

  function ParseDeclarationOrExpression(ts: seq<Token>): (r: Parsed<Stmt>)
    ensures r.Ok? ==> |r.rest| < |ts|
    decreases |ts|, 4
  {
    if StartsDeclaration(Peek(ts)) then ParseDeclaration(ts)
    else
      var (e, r) :- ParseExpression(ts);
      var (_, r') :- Expect(SEMICOLON, r);
      Ok(ExprStmt(e), r')
  }

  function ParseBlock(ts: seq<Token>): (r: Parsed<Stmt>)
    ensures r.Ok? ==> |r.rest| < |ts|
    decreases |ts|, 1
  {
    var (_, r) :- Expect(LBRACE, ts);
    var (stmts, r') :- StmtsFrom([], r);
    var (_, r'') :- Expect(RBRACE, r');
    Ok(Block(stmts), r'')
  }

  function StmtsFrom(stmts: seq<Stmt>, ts: seq<Token>): (r: Parsed<seq<Stmt>>)
    ensures r.Ok? ==> |r.rest| <= |ts|
    decreases |ts|, 6
  {
    if Peek(ts) == RBRACE || Peek(ts) == END then Ok(stmts, ts)
    else
      var (s, r) :- ParseStatement(ts);
      StmtsFrom(stmts + [s], r)
  }

  /** The parenthesised condition of `if`, `while` and `do`. */
  function ParseParenthesized(ts: seq<Token>): (r: Parsed<Expr>)
    ensures r.Ok? ==> |r.rest| < |ts|
  {
    var (_, r0) :- Expect(LPAREN, ts);
    var (e, r1) :- ParseExpression(r0);
    var (_, r2) :- Expect(RPAREN, r1);
    Ok(e, r2)
  }

  function ParseIf(ts: seq<Token>): (r: Parsed<Stmt>)
    ensures r.Ok? ==> |r.rest| < |ts|
    decreases |ts|, 1
  {
    var (_, r0) :- Expect(IF, ts);
    var (cond, r1) :- ParseParenthesized(r0);
    var (thenBody, r2) :- ParseStatement(r1);
    if Peek(r2) == ELSE then
      var (elseBody, r3) :- ParseStatement(r2[1..]);
      Ok(If(cond, thenBody, Some(elseBody)), r3)
    else Ok(If(cond, thenBody, None), r2)
  }

  function ParseWhile(ts: seq<Token>): (r: Parsed<Stmt>)
    ensures r.Ok? ==> |r.rest| < |ts|
    decreases |ts|, 1
  {
    var (_, r0) :- Expect(WHILE, ts);
    var (cond, r1) :- ParseParenthesized(r0);
    var (body, r2) :- ParseStatement(r1);
    Ok(While(cond, body), r2)
  }

  /** An expression that may be missing, before the token `stop`. */
  function ParseOptional(stop: TokenKind, ts: seq<Token>): (r: Parsed<Option<Expr>>)
    requires stop != END
    ensures r.Ok? ==> |r.rest| < |ts|
  {
    if Peek(ts) == stop then Ok(None, ts[1..])
    else
      var (e, r) :- ParseExpression(ts);
      var (_, r') :- Expect(stop, r);
      Ok(Some(e), r')
  }

  function ParseFor(ts: seq<Token>): (r: Parsed<Stmt>)
    ensures r.Ok? ==> |r.rest| < |ts|
    decreases |ts|, 1
  {
    var (_, r0) :- Expect(FOR, ts);
    var (_, r1) :- Expect(LPAREN, r0);
    var (init, r2) :- ParseOptional(SEMICOLON, r1);
    var (cond, r3) :- ParseOptional(SEMICOLON, r2);
    var (inc, r4) :- ParseOptional(RPAREN, r3);
    var (body, r5) :- ParseStatement(r4);
    Ok(For(init, cond, inc, body), r5)
  }

  function ParseDoWhile(ts: seq<Token>): (r: Parsed<Stmt>)
    ensures r.Ok? ==> |r.rest| < |ts|
    decreases |ts|, 1
  {
    var (_, r0) :- Expect(DO, ts);
    var (body, r1) :- ParseStatement(r0);
    var (_, r2) :- Expect(WHILE, r1);
    var (cond, r3) :- ParseParenthesized(r2);
    var (_, r4) :- Expect(SEMICOLON, r3);
    Ok(DoWhile(body, cond), r4)
  }

  function ParseReturn(ts: seq<Token>): (r: Parsed<Stmt>)
    ensures r.Ok? ==> |r.rest| < |ts|
  {
    var (_, r0) :- Expect(RETURN, ts);
    var (result, r1) :- ParseOptional(SEMICOLON, r0);
    Ok(Return(result), r1)
  }

  function DeclsFrom(decls: seq<Stmt>, ts: seq<Token>): (r: Parsed<seq<Stmt>>)
    decreases |ts|
  {
    if Peek(ts) == END then Ok(decls, ts)
    else
      var (d, r) :- ParseDeclaration(ts);
      DeclsFrom(decls + [d], r)
  }

  /** A whole translation unit. */
  function ParseProgram(ts: seq<Token>): Parsed<seq<Stmt>> {
    DeclsFrom([], ts)
  }
}
