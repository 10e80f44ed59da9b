/**
  Parsing an expression inverts listing it, for every tree the grammar can build and
  whatever tokens follow, provided they cannot extend the expression.
 */
module ExpressionTheorems {
  import opened Ast
  import opened Grammar
  import opened Listing

  predicate IsPostfixToken(k: TokenKind) {
    k == LPAREN || k == LBRACKET || k == DOT || k == ARROW || k == PLUSPLUS || k == MINUSMINUS
  }

  /** No token a binary level of `level` or tighter would take comes next. */
  predicate Stops(level: int, rest: seq<Token>) {
    !IsPostfixToken(Peek(rest)) && LevelOf(Peek(rest)) < level
  }

  /** `rest` cannot extend an expression that ends just before it. */
  predicate StopsExpression(rest: seq<Token>) {
    Stops(0, rest) && !IsAssignOp(Peek(rest))
  }

  // The lemmas below follow the grammar downwards.  The measure is the tree, then whether
  // it is about to be grouped, then the grammar level.

  function Grouped(level: int, e: Expr): nat { if Prec(e) < level then 1 else 0 }

  /** A token that is no prefix operator goes to the postfix level. */
  lemma UnaryIsPostfix(ts: seq<Token>)
    requires var k := Peek(ts); !IsPrefixOp(k) && k != AMPER && k != STAR && k != PLUS && k != SIZEOF
    ensures ParseUnary(ts) == ParsePostfix(ts)
  {
  }

  /** A prefix operator wraps what the unary level reads after it; unary `+` wraps nothing. */
  lemma UnaryIsPrefix(e: Expr, ts: seq<Token>, rest: seq<Token>)
    requires Printable(e) && Prec(e) == 11
    requires ParseUnary(ts) == Ok(e.operand, rest)
    ensures var op := if e.Unary? then e.uop else if e.AddressOf? then AMPER else if e.Deref? then STAR else SIZEOF;
      ParseUnary(Cons(op, ts)) == Ok(e, rest)
  {
  }

  lemma MemberExtends(node: Expr, m: string, rest: seq<Token>)
    ensures PostfixTail(node, Cons(DOT, ConsName(m, rest))) == PostfixTail(Member(node, m), rest)
    ensures PostfixTail(node, Cons(ARROW, ConsName(m, rest))) == PostfixTail(Member(Deref(node), m), rest)
  {
  }

  /** The doubled spelling of a postfix operator; a single one would take the next token instead. */
  lemma DoubledExtends(node: Expr, op: TokenKind, rest: seq<Token>)
    requires op == PLUSPLUS || op == MINUSMINUS
    ensures PostfixTail(node, Cons(op, Cons(op, rest))) == PostfixTail(Unary(op, node, false), rest)
  {
  }

  lemma IndexExtends(node: Expr, i: Expr, ts: seq<Token>, rest: seq<Token>)
    requires ParseExpression(ts) == Ok(i, Cons(RBRACKET, rest))
    ensures PostfixTail(node, Cons(LBRACKET, ts)) == PostfixTail(Index(node, i), rest)
  {
  }

  /** A postfix-level listing brings the postfix loop to its tree. */
  lemma {:induction false} PostfixListing(e: Expr, rest: seq<Token>)
    requires Printable(e) && Prec(e) == 12
    ensures ParseUnary(List(e, rest)) == PostfixTail(e, rest)
    decreases e, 0, 2
  {
    match e
    case Call(f, args) => CallListing(f, args, rest);
    case Unary(op, x, _) =>
      PostfixOperandListing(x, Cons(op, Cons(op, rest)));
      DoubledExtends(x, op, rest);
    case Index(a, i) =>
      PostfixOperandListing(a, Cons(LBRACKET, List(i, Cons(RBRACKET, rest))));
      ExpressionListing(i, Cons(RBRACKET, rest));
      IndexExtends(a, i, List(i, Cons(RBRACKET, rest)), rest);
    case Member(o, m) =>
      MemberExtends(if o.Deref? then o.operand else o, m, rest);
      if o.Deref? { PostfixOperandListing(o.operand, Cons(ARROW, ConsName(m, rest))); }
      else { PostfixOperandListing(o, Cons(DOT, ConsName(m, rest))); }
    case _ => UnaryIsPostfix(List(e, rest));
  }

  lemma {:induction false} CallListing(f: string, args: seq<Expr>, rest: seq<Token>)
    requires forall a | a in args :: Printable(a)
    ensures ParseUnary(List(Call(f, args), rest)) == PostfixTail(Call(f, args), rest)
    decreases args, 1, 0
  {
    var ts := ListArgs(args, Cons(RPAREN, rest));
    UnaryIsPostfix(List(Call(f, args), rest));
    assert ParseUnary(List(Call(f, args), rest)) == PostfixTail(Variable(f), Cons(LPAREN, ts));
    if args == [] {
      assert Cons(LPAREN, ts)[2..] == rest;
    } else {
      ArgsStart(args, Cons(RPAREN, rest));
      ArgsListing(args, [], Cons(RPAREN, rest));
      assert [] + args == args;
    }
  }

  lemma ArgsStart(args: seq<Expr>, rest: seq<Token>)
    requires args != [] && forall a | a in args :: Printable(a)
    ensures StartsExpression(Peek(ListArgs(args, rest)))
  {
    ListingStarts(args[0], rest);
    ListingStarts(args[0], Cons(COMMA, ListArgs(args[1..], rest)));
  }

  lemma {:induction false} ArgsListing(args: seq<Expr>, before: seq<Expr>, rest: seq<Token>)
    requires args != [] && (forall a | a in args :: Printable(a)) && Peek(rest) == RPAREN
    ensures ArgsFrom(before, ListArgs(args, rest)) == Ok(before + args, rest)
    decreases args, 0, 0
  {
    if |args| == 1 {
      ExpressionListing(args[0], rest);
      assert before + [args[0]] == before + args;
    } else {
      var more := ListArgs(args[1..], rest);
      ExpressionListing(args[0], Cons(COMMA, more));
      ArgsListing(args[1..], before + [args[0]], rest);
      assert before + [args[0]] + args[1..] == before + args;
    }
  }

  /** The same for an operand of a postfix operator, grouped if need be. */
  lemma {:induction false} PostfixOperandListing(e: Expr, rest: seq<Token>)
    requires Printable(e)
    ensures ParseUnary(ListAt(12, e, rest)) == PostfixTail(e, rest)
    decreases e, Grouped(12, e), 3
  {
    if Prec(e) == 12 {
      PostfixListing(e, rest);
    } else {
      GroupListing(e, rest);
    }
  }

  lemma {:induction false} GroupListing(e: Expr, rest: seq<Token>)
    requires Printable(e)
    ensures ParseUnary(ListGrouped(e, rest)) == PostfixTail(e, rest)
    decreases e, 0, 60
  {
    var inner := List(e, Cons(RPAREN, rest));
    ExpressionListing(e, Cons(RPAREN, rest));
    assert ParseUnary(ListGrouped(e, rest)) == ParseUnary(Cons(LPAREN, inner));
    UnaryIsPostfix(Cons(LPAREN, inner));
    assert ParsePrimary(Cons(LPAREN, inner)) == Ok(e, rest);
  }

  lemma {:induction false} UnaryListing(e: Expr, rest: seq<Token>)
    requires Printable(e) && !IsPostfixToken(Peek(rest))
    ensures ParseUnary(ListAt(11, e, rest)) == Ok(e, rest)
    decreases e, Grouped(11, e), 4
  {
    if Prec(e) == 11 {
      UnaryListing(e.operand, rest);
      UnaryIsPrefix(e, ListAt(11, e.operand, rest), rest);
    } else {
      PostfixOperandListing(e, rest);
    }
  }

  lemma {:induction false} CastListing(e: Expr, rest: seq<Token>)
    requires Printable(e) && !IsPostfixToken(Peek(rest))
    ensures ParseCast(ListAt(10, e, rest)) == Ok(e, rest)
    decreases e, Grouped(10, e), 5
  {
    if Prec(e) == 10 {
      assert e.Cast?;
      var operand := ListAt(10, e.operand, rest);
      CastListing(e.operand, rest);
      TypeParses(e.target, Cons(RPAREN, operand));
    } else {
      ListingAtStarts(11, e, rest);
      UnaryListing(e, rest);
    }
  }

  /** A listing brings the loop of every level no tighter than its root to its tree. */
  lemma {:induction false} LevelListing(k: nat, e: Expr, rest: seq<Token>)
    requires k < 10 && Printable(e) && Stops(k + 1, rest)
    ensures ParseLevel(k, ListAt(k, e, rest)) == LevelTail(k, e, rest)
    decreases e, Grouped(k, e), 40 - 2 * k
  {
    hide ParseLevel;
    if Prec(e) == k {
      assert e.Binary?;
      var after := ListAt(k + 1, e.right, rest);
      LevelListing(k, e.left, Cons(e.op, after));
      OperandListing(k + 1, e.right, rest);
      LevelOfBinary(k, e, rest);
    } else {
      OperandListing(k + 1, e, rest);
      LevelOfTighter(k, e, rest);
    }
  }

  lemma LevelOfBinary(k: nat, e: Expr, rest: seq<Token>)
    requires k < 10 && Printable(e) && Prec(e) == k && e.Binary?
    requires var after := ListAt(k + 1, e.right, rest);
      var ts := Cons(e.op, after);
      ParseLevel(k, ListAt(k, e.left, ts)) == LevelTail(k, e.left, ts) && ParseLevel(k + 1, after) == Ok(e.right, rest)
    ensures ParseLevel(k, ListAt(k, e, rest)) == LevelTail(k, e, rest)
  {
    hide ParseLevel; hide Printable;
    var after := ListAt(k + 1, e.right, rest);
    assert Cons(e.op, after)[1..] == after;
  }

  lemma LevelOfTighter(k: nat, e: Expr, rest: seq<Token>)
    requires k < 10 && Printable(e) && Prec(e) != k && ParseLevel(k + 1, ListAt(k + 1, e, rest)) == Ok(e, rest)
    ensures ParseLevel(k, ListAt(k, e, rest)) == LevelTail(k, e, rest)
  {
    hide LevelTail; hide Printable; hide List; hide ParseCast;
    assert ListAt(k, e, rest) == ListAt(k + 1, e, rest);
  }

  lemma {:induction false} OperandListing(k: nat, e: Expr, rest: seq<Token>)
    requires k <= 10 && Printable(e) && Stops(k, rest)
    ensures ParseLevel(k, ListAt(k, e, rest)) == Ok(e, rest)
    decreases e, Grouped(k, e), 41 - 2 * k
  {
    if k == 10 { CastListing(e, rest); } else { LevelListing(k, e, rest); }
  }

  /** Parsing inverts listing, whatever follows that cannot extend the expression. */
  lemma {:induction false} ExpressionListing(e: Expr, rest: seq<Token>)
    requires Printable(e) && StopsExpression(rest)
    ensures ParseExpression(List(e, rest)) == Ok(e, rest)
    decreases e, 0, 50
  {
    hide ListAt; hide ParseLevel;
    match e
    case Assign(l, r) =>
      OperandListing(0, l, Cons(EQ, List(r, rest)));
      ExpressionListing(r, rest);
    case _ =>
      OperandListing(0, e, rest);
      ListedWhole(e, rest);
  }

  lemma ListedWhole(e: Expr, rest: seq<Token>)
    requires Printable(e) && !e.Assign?
    ensures ListAt(0, e, rest) == List(e, rest)
  {
    hide List;
  }
}
