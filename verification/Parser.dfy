/**
  The recursive-descent parser, moving a cursor over its tokens.

  Each method is proved to return what the grammar function of the same name computes from
  the tokens at the cursor, and to leave the cursor where that function's rest begins.  The
  ten binary levels, which differ only in their operators, are one method with the level as
  its argument.
 */
module Parser {
  import opened Ast
  import G = Grammar

  datatype Result<+T> = Success(value: T) | Failure(error: G.ParseError) {
    predicate IsFailure() { Failure? }
    function PropagateFailure<U>(): Result<U> requires Failure? { Failure(error) }
    function Extract(): T requires Success? { value }
  }

  class Parser {
    const tokens: seq<Token>
    var pos: nat

    predicate Valid()
      reads this
    {
      pos <= |tokens|
    }

    function Rest(): seq<Token>
      requires Valid()
      reads this
    {
      tokens[pos..]
    }

    /** The method returned what `p` is, and on success the cursor stands at its rest. */
    predicate Agrees<T(==)>(r: Result<T>, p: G.Parsed<T>)
      reads this
    {
      Valid() && (if p.Ok? then r == Success(p.value) && Rest() == p.rest else r == Failure(p.error))
    }

    constructor (tokens: seq<Token>)
      ensures Valid() && this.tokens == tokens && Rest() == tokens
    {
      this.tokens := tokens;
      pos := 0;
    }

    // ---- cursor ----

    function Peek(): (k: TokenKind)
      requires Valid()
      reads this
      ensures k == G.Peek(Rest())
    {
      if pos < |tokens| then tokens[pos].kind else END
    }

    method Next() returns (t: Token)
      requires Valid()
      modifies this`pos
      ensures Valid() && t == G.PeekToken(old(Rest())) && Rest() == G.Advance(old(Rest()))
    {
      t := if pos < |tokens| then tokens[pos] else Sym(END);
      if Peek() != END {
        pos := pos + 1;
      }
    }

    method Expect(kind: TokenKind) returns (r: Result<Token>)
      requires Valid() && kind != END
      modifies this`pos
      ensures Agrees(r, G.Expect(kind, old(Rest())))
    {
      var t := Next();
      if t.kind != kind {
        return Failure(G.Expected(kind));
      }
      return Success(t);
    }

    method Match(kind: TokenKind) returns (matched: bool)
      requires Valid() && kind != END
      modifies this`pos
      ensures Valid() && matched == (G.Peek(old(Rest())) == kind)
      ensures Rest() == if matched then old(Rest())[1..] else old(Rest())
    {
      matched := Peek() == kind;
      if matched {
        var _ := Next();
      }
    }

    // ---- types ----

    method ParseTypeSpec() returns (r: Result<CType>)
      requires Valid()
      modifies this`pos
      ensures Agrees(r, G.ParseTypeSpec(old(Rest())))
    {
      var f := G.NoFlags;
      var base := NONE;
      while true
        invariant Valid() && base == NONE
        invariant G.TypeSpecFrom(f, Rest()) == G.ParseTypeSpec(old(Rest()))
        decreases |tokens| - pos
      {
        var k := Peek();
        if k == CONST { var _ := Next(); f := f.(isConst := true); continue; }
        if k == VOLATILE { var _ := Next(); f := f.(isVolatile := true); continue; }
        if k == UNSIGNED { var _ := Next(); f := f.(isUnsigned := true); continue; }
        if k == SIGNED { var _ := Next(); continue; }
        if k == LONG_KW { var _ := Next(); f := f.(isLong := true); continue; }
        if k == SHORT_KW { var _ := Next(); break; }
        if k == VOID_KW { var _ := Next(); base := VOID; break; }
        if k == CHAR_KW { var _ := Next(); base := if f.isUnsigned then UCHAR else CHAR; break; }
        if k == INT_KW { var _ := Next(); break; }
        if k == STRUCT_KW {
          var _ := Next();
          var _ :- Expect(IDENT);
          base := STRUCT;
          break;
        }
        break;
      }
      return Success(G.FinishType(f, base));
    }

    method ParseDeclarator(base: CType) returns (t: CType, name: Option<string>)
      requires Valid()
      modifies this`pos
      ensures Valid() && G.DeclaratorFrom(base, old(Rest())) == (t, name, Rest())
    {
      t := base;
      while Peek() == STAR
        invariant Valid()
        invariant G.DeclaratorFrom(t, Rest()) == G.DeclaratorFrom(base, old(Rest()))
        decreases |tokens| - pos
      {
        var _ := Next();
        t := t.(pointerDepth := t.pointerDepth + 1);
      }
      name := None;
      if Peek() == IDENT {
        var tok := Next();
        name := Some(tok.text);
      }
    }

    // ---- declarations ----

    method ParseDeclaration() returns (r: Result<Stmt>)
      requires Valid()
      modifies this`pos
      ensures Agrees(r, G.ParseDeclaration(old(Rest())))
      decreases |tokens| - pos, 3
    {
      hide G.ParseTypeSpec; hide G.ParseFunctionDef; hide G.ParseVariableDecl; hide G.DeclaratorFrom;
      var isExtern := Match(EXTERN);
      var isStatic := Match(STATIC);
      var t :- ParseTypeSpec();
      if Peek() == IDENT {
        var name := Next();
        if Peek() == LPAREN {
          r := ParseFunctionDef(t, name.text);
          return;
        }
        r := ParseVariableDecl(t, name.text, isExtern, isStatic);
        return;
      }
      var t', name' := ParseDeclarator(t);
      if name'.Some? {
        r := ParseVariableDecl(t', name'.value, isExtern, isStatic);
        return;
      }
      return Failure(G.NoIdentifierAfterType);
    }

    method ParseFunctionDef(t: CType, name: string) returns (r: Result<Stmt>)
      requires Valid()
      modifies this`pos
      ensures Agrees(r, G.ParseFunctionDef(t, name, old(Rest())))
      decreases |tokens| - pos, 2
    {
      var _ :- Expect(LPAREN);
      var params: seq<Param> := [];
      if Peek() != RPAREN {
        ghost var start := Rest();
        var more := true;
        while more
          invariant Valid() && |Rest()| <= |start|
          invariant G.ParamsFrom([], start) == if more then G.ParamsFrom(params, Rest()) else G.Ok(params, Rest())
          decreases more, |tokens| - pos
        {
          var pt :- ParseTypeSpec();
          var pt', pname := ParseDeclarator(pt);
          params := params + [Param(if pname.Some? then pname.value else "", pt')];
          more := Match(COMMA);
        }
      }
      var _ :- Expect(RPAREN);
      if Peek() == LBRACE {
        var body :- ParseBlock();
        return Success(FunctionDef(name, t, params, Some(body)));
      } else {
        var _ :- Expect(SEMICOLON);
        return Success(FunctionDef(name, t, params, None));
      }
    }

    method ParseVariableDecl(t: CType, name: string, isExtern: bool, isStatic: bool) returns (r: Result<Stmt>)
      requires Valid()
      modifies this`pos
      ensures Agrees(r, G.ParseVariableDecl(t, name, isExtern, isStatic, old(Rest())))
      decreases |tokens| - pos, 1
    {
      hide G.ParseAssignment;
      var t' := t;
      var bracket := Match(LBRACKET);
      if bracket {
        if Peek() == NUMBER {
          var n := Next();
          t' := t'.(arraySize := G.ToInt32(n.intval));
        }
        var _ :- Expect(RBRACKET);
      }
      var init: Option<Expr> := None;
      var eq := Match(EQ);
      if eq {
        var e :- ParseAssignment();
        init := Some(e);
      }
      var _ :- Expect(SEMICOLON);
      return Success(VariableDecl(name, t', init, isExtern, isStatic));
    }

    // ---- statements ----

    method ParseStatement() returns (r: Result<Stmt>)
      requires Valid()
      modifies this`pos
      ensures Agrees(r, G.ParseStatement(old(Rest())))
      decreases |tokens| - pos, 5
    {
      var k := Peek();
      if k == LBRACE { r := ParseBlock(); }
      else if k == IF { r := ParseIf(); }
      else if k == WHILE { r := ParseWhile(); }
      else if k == FOR { r := ParseFor(); }
      else if k == DO { r := ParseDoWhile(); }
      else if k == RETURN { r := ParseReturn(); }
      else if k == BREAK { r := ParseJump(BREAK, Break); }
      else if k == CONTINUE { r := ParseJump(CONTINUE, Continue); }
      else if k == SEMICOLON { var _ := Next(); r := Success(Empty); }
      else if k == INLINE_ASM { r := ParseAsm(); }
      else { r := ParseDeclarationOrExpression(); }
    }

    /** `break;` and `continue;`. */
    method ParseJump(kind: TokenKind, s: Stmt) returns (r: Result<Stmt>)
      requires Valid() && kind != END && Peek() == kind
      modifies this`pos
      ensures var e := G.Expect(SEMICOLON, old(Rest())[1..]);
        Agrees(r, if e.Ok? then G.Ok(s, e.rest) else G.Fail(e.error))
    {
      var _ := Next();
      var _ :- Expect(SEMICOLON);
      return Success(s);
    }

    method ParseAsm() returns (r: Result<Stmt>)
      requires Valid() && Peek() == INLINE_ASM
      modifies this`pos
      ensures var e := G.Expect(SEMICOLON, old(Rest())[1..]);
        Agrees(r, if e.Ok? then G.Ok(AsmStmt(old(Rest())[0].text), e.rest) else G.Fail(e.error))
    {
      var t := Next();
      var _ :- Expect(SEMICOLON);
      return Success(AsmStmt(t.text));
    }

    method ParseDeclarationOrExpression() returns (r: Result<Stmt>)
      requires Valid()
      modifies this`pos
      ensures Agrees(r, G.ParseDeclarationOrExpression(old(Rest())))
      decreases |tokens| - pos, 4
    {
      if G.StartsDeclaration(Peek()) {
        r := ParseDeclaration();
        return;
      }
      var e :- ParseExpression();
      var _ :- Expect(SEMICOLON);
      return Success(ExprStmt(e));
    }

    method ParseBlock() returns (r: Result<Stmt>)
      requires Valid()
      modifies this`pos
      ensures Agrees(r, G.ParseBlock(old(Rest())))
      decreases |tokens| - pos, 1
    {
      var _ :- Expect(LBRACE);
      ghost var start := Rest();
      var stmts: seq<Stmt> := [];
      while Peek() != RBRACE && Peek() != END
        invariant Valid() && |Rest()| <= |start|
        invariant G.StmtsFrom(stmts, Rest()) == G.StmtsFrom([], start)
        decreases |tokens| - pos
      {
        var s :- ParseStatement();
        stmts := stmts + [s];
      }
      var _ :- Expect(RBRACE);
      return Success(Block(stmts));
    }

    method ParseParenthesized() returns (r: Result<Expr>)
      requires Valid()
      modifies this`pos
      ensures Agrees(r, G.ParseParenthesized(old(Rest())))
      decreases |tokens| - pos, 0
    {
      var _ :- Expect(LPAREN);
      var e :- ParseExpression();
      var _ :- Expect(RPAREN);
      return Success(e);
    }

    method ParseIf() returns (r: Result<Stmt>)
      requires Valid()
      modifies this`pos
      ensures Agrees(r, G.ParseIf(old(Rest())))
      decreases |tokens| - pos, 1
    {
      var _ :- Expect(IF);
      var cond :- ParseParenthesized();
      var thenBody :- ParseStatement();
      var hasElse := Match(ELSE);
      if hasElse {
        var elseBody :- ParseStatement();
        return Success(If(cond, thenBody, Some(elseBody)));
      }
      return Success(If(cond, thenBody, None));
    }

    method ParseWhile() returns (r: Result<Stmt>)
      requires Valid()
      modifies this`pos
      ensures Agrees(r, G.ParseWhile(old(Rest())))
      decreases |tokens| - pos, 1
    {
      var _ :- Expect(WHILE);
      var cond :- ParseParenthesized();
      var body :- ParseStatement();
      return Success(While(cond, body));
    }

    /** An expression unless `stop` comes first, then `stop`. */
    method ParseOptional(stop: TokenKind) returns (r: Result<Option<Expr>>)
      requires Valid() && stop != END
      modifies this`pos
      ensures Agrees(r, G.ParseOptional(stop, old(Rest())))
      decreases |tokens| - pos, 18
    {
      var e: Option<Expr> := None;
      if Peek() != stop {
        var x :- ParseExpression();
        e := Some(x);
      }
      var _ :- Expect(stop);
      return Success(e);
    }

    method ParseFor() returns (r: Result<Stmt>)
      requires Valid()
      modifies this`pos
      ensures Agrees(r, G.ParseFor(old(Rest())))
      decreases |tokens| - pos, 1
    {
      var _ :- Expect(FOR);
      var _ :- Expect(LPAREN);
      var init :- ParseOptional(SEMICOLON);
      var cond :- ParseOptional(SEMICOLON);
      var inc :- ParseOptional(RPAREN);
      var body :- ParseStatement();
      return Success(For(init, cond, inc, body));
    }

    method ParseDoWhile() returns (r: Result<Stmt>)
      requires Valid()
      modifies this`pos
      ensures Agrees(r, G.ParseDoWhile(old(Rest())))
      decreases |tokens| - pos, 1
    {
      var _ :- Expect(DO);
      var body :- ParseStatement();
      var _ :- Expect(WHILE);
      var cond :- ParseParenthesized();
      var _ :- Expect(SEMICOLON);
      return Success(DoWhile(body, cond));
    }

    method ParseReturn() returns (r: Result<Stmt>)
      requires Valid()
      modifies this`pos
      ensures Agrees(r, G.ParseReturn(old(Rest())))
      decreases |tokens| - pos, 1
    {
      var _ :- Expect(RETURN);
      var e :- ParseOptional(SEMICOLON);
      return Success(Return(e));
    }

    // ---- expressions ----

    method ParseExpression() returns (r: Result<Expr>)
      requires Valid()
      modifies this`pos
      ensures Agrees(r, G.ParseExpression(old(Rest())))
      decreases |tokens| - pos, 17
    {
      r := ParseAssignment();
    }

    method ParseAssignment() returns (r: Result<Expr>)
      requires Valid()
      modifies this`pos
      ensures Agrees(r, G.ParseAssignment(old(Rest())))
      decreases |tokens| - pos, 16
    {
      var node :- ParseLevel(0);
      if G.IsAssignOp(Peek()) {
        var _ := Next();
        var value :- ParseAssignment();
        return Success(Assign(node, value));
      }
      return Success(node);
    }

    method ParseLevel(k: nat) returns (r: Result<Expr>)
      requires Valid() && k <= 10
      modifies this`pos
      ensures Agrees(r, G.ParseLevel(k, old(Rest())))
      decreases |tokens| - pos, 15 - k
    {
      hide G.ParseCast; hide G.LevelTail;
      if k == 10 {
        r := ParseCast();
        return;
      }
      var node :- ParseLevel(k + 1);
      r := ParseLevelTail(k, node);
    }

    /** The operators of level `k` and their right operands, gathered to the left. */
    method ParseLevelTail(k: nat, first: Expr) returns (r: Result<Expr>)
      requires Valid() && k < 10
      modifies this`pos
      ensures Agrees(r, G.LevelTail(k, first, old(Rest())))
      decreases |tokens| - pos, 19
    {
      hide G.ParseLevel;
      var node := first;
      while LevelOf(Peek()) == k
        invariant Valid() && |Rest()| <= |old(Rest())|
        invariant G.LevelTail(k, node, Rest()) == G.LevelTail(k, first, old(Rest()))
        decreases |tokens| - pos
      {
        var op := Next();
        var right :- ParseLevel(k + 1);
        node := Binary(op.kind, node, right);
      }
      return Success(node);
    }

    method ParseCast() returns (r: Result<Expr>)
      requires Valid()
      modifies this`pos
      ensures Agrees(r, G.ParseCast(old(Rest())))
      decreases |tokens| - pos, 4
    {
      if Peek() == LPAREN {
        var _ := Next();
        var t :- ParseTypeSpec();
        if Peek() == RPAREN {
          var _ := Next();
          var e :- ParseCast();
          return Success(Cast(t, e));
        }
        r := ParseUnary();
        return;
      }
      r := ParseUnary();
    }

    method ParseUnary() returns (r: Result<Expr>)
      requires Valid()
      modifies this`pos
      ensures Agrees(r, G.ParseUnary(old(Rest())))
      decreases |tokens| - pos, 3
    {
      var k := Peek();
      if G.IsPrefixOp(k) {
        var _ := Next();
        var e :- ParseUnary();
        return Success(Unary(k, e, true));
      }
      if k == AMPER {
        var _ := Next();
        var e :- ParseUnary();
        return Success(AddressOf(e));
      }
      if k == STAR {
        var _ := Next();
        var e :- ParseUnary();
        return Success(Deref(e));
      }
      if k == PLUS {
        var _ := Next();
        r := ParseUnary();
        return;
      }
      if k == SIZEOF {
        var _ := Next();
        var e :- ParseUnary();
        return Success(SizeOf(e));
      }
      r := ParsePostfix();
    }

    method ParsePostfix() returns (r: Result<Expr>)
      requires Valid()
      modifies this`pos
      ensures Agrees(r, G.ParsePostfix(old(Rest())))
      decreases |tokens| - pos, 2
    {
      hide G.ParsePrimary; hide G.ParseExpression; hide G.ArgsFrom;
      var node :- ParsePrimary();
      while true
        invariant Valid() && |Rest()| < |old(Rest())|
        invariant G.PostfixTail(node, Rest()) == G.ParsePostfix(old(Rest()))
        decreases |tokens| - pos
      {
        var k := Peek();
        if k == LPAREN {
          var _ := Next();
          if node.Variable? {
            var args :- ParseArgs();
            node := Call(node.name, args);
          }
        } else if k == LBRACKET {
          var _ := Next();
          var index :- ParseExpression();
          var _ :- Expect(RBRACKET);
          node := Index(node, index);
        } else if k == DOT {
          var _ := Next();
          var name :- Expect(IDENT);
          node := Member(node, name.text);
        } else if k == ARROW {
          var _ := Next();
          var name :- Expect(IDENT);
          node := Member(Deref(node), name.text);
        } else if k == PLUSPLUS || k == MINUSMINUS {
          var _ := Next();
          node := Unary(if Peek() == PLUSPLUS then PLUSPLUS else MINUSMINUS, node, false);
          var _ := Next();
        } else {
          break;
        }
      }
      return Success(node);
    }

    /** The arguments of a call and its closing bracket. */
    method ParseArgs() returns (r: Result<seq<Expr>>)
      requires Valid()
      modifies this`pos
      ensures Agrees(r, ClosedArgs(old(Rest())))
      decreases |tokens| - pos, 18
    {
      var args: seq<Expr> := [];
      if Peek() != RPAREN {
        var more := true;
        while more
          invariant Valid() && |Rest()| <= |old(Rest())|
          invariant G.ArgsFrom([], old(Rest())) == if more then G.ArgsFrom(args, Rest()) else G.Ok(args, Rest())
          decreases more, |tokens| - pos
        {
          var e :- ParseExpression();
          args := args + [e];
          more := Match(COMMA);
        }
      }
      var _ :- Expect(RPAREN);
      return Success(args);
    }

    static function ClosedArgs(ts: seq<Token>): (r: G.Parsed<seq<Expr>>)
      ensures r.Ok? ==> |r.rest| < |ts|
    {
      if G.Peek(ts) == RPAREN then G.Ok([], ts[1..])
      else
        var (args, rest) :- G.ArgsFrom([], ts);
        var (_, rest') :- G.Expect(RPAREN, rest);
        G.Ok(args, rest')
    }

    method ParsePrimary() returns (r: Result<Expr>)
      requires Valid()
      modifies this`pos
      ensures Agrees(r, G.ParsePrimary(old(Rest())))
      decreases |tokens| - pos, 1
    {
      var k := Peek();
      if k == LPAREN {
        var _ := Next();
        var e :- ParseExpression();
        var _ :- Expect(RPAREN);
        return Success(e);
      }
      var t := Next();
      if k == NUMBER || k == CHAR_LIT { return Success(Constant(t.intval)); }
      if k == STRING { return Success(StringLit(t.text)); }
      if k == IDENT { return Success(Variable(t.text)); }
      if k == INLINE_ASM { return Success(Asm(t.text)); }
      return Failure(G.UnexpectedToken(t.text));
    }

    /** A whole translation unit. */
    method Parse() returns (r: Result<seq<Stmt>>)
      requires Valid()
      modifies this`pos
      ensures Agrees(r, G.ParseProgram(old(Rest())))
    {
      var decls: seq<Stmt> := [];
      while Peek() != END
        invariant Valid()
        invariant G.DeclsFrom(decls, Rest()) == G.ParseProgram(old(Rest()))
        decreases |tokens| - pos
      {
        var d :- ParseDeclaration();
        decls := decls + [d];
      }
      return Success(decls);
    }
  }
}
