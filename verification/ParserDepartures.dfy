/**
  Where the expression parser departs from the language, for every operand and every position:
  grouping brackets, postfix operators and compound assignment.
 */
module ParserDepartures {
  import opened Ast
  import opened Grammar
  import opened Listing
  import opened ExpressionTheorems

  // ---- positions in an expression ----

  /** Reading at a grammar level: 0 to 9 binary, 10 cast, 11 directly under a prefix operator. */
  function ReadAt(level: nat, ts: seq<Token>): Parsed<Expr>
    requires level <= 11
  {
    if level == 11 then ParseUnary(ts) else ParseLevel(level, ts)
  }

  lemma {:induction false} SameAtEveryLevel(k: nat, a: seq<Token>, b: seq<Token>)
    requires k <= 10 && ParseCast(a) == ParseCast(b)
    ensures ParseLevel(k, a) == ParseLevel(k, b)
    decreases 10 - k
  {
    if k < 10 { SameAtEveryLevel(k + 1, a, b); }
  }

  /** A looser level reads at least as far as a tighter one. */
  lemma {:induction false} TighterReadsLess(j: nat, k: nat, ts: seq<Token>)
    requires j <= k <= 10 && ParseLevel(j, ts).Ok?
    ensures ParseLevel(k, ts).Ok? && |ParseLevel(j, ts).rest| <= |ParseLevel(k, ts).rest|
    decreases k - j
  {
    if j < k {
      hide LevelTail; hide ParseCast;
      TighterReadsLess(j + 1, k, ts);
    }
  }

  // ---- grouping brackets ----

  predicate StartsType(k: TokenKind) {
    k == CONST || k == VOLATILE || k == UNSIGNED || k == SIGNED || k == LONG_KW || k == SHORT_KW || k == VOID_KW
    || k == CHAR_KW || k == INT_KW || k == STRUCT_KW
  }

  /** A bracket with no type and no closing bracket behind it is dropped at the cast level. */
  lemma CastDropsBracket(ts: seq<Token>)
    requires !StartsType(Peek(ts)) && Peek(ts) != RPAREN
    ensures ParseCast(Cons(LPAREN, ts)) == ParseUnary(ts)
  {
    assert Cons(LPAREN, ts)[1..] == ts;
  }

  /**
    An opening bracket in front of anything but a type or another bracket vanishes: at every
    level from the cast level up, the tokens are read as if it were not there.
   */
  lemma BracketVanishes(k: nat, ts: seq<Token>)
    requires k <= 10 && !StartsType(Peek(ts)) && Peek(ts) != RPAREN && Peek(ts) != LPAREN
    ensures ParseLevel(k, Cons(LPAREN, ts)) == ParseLevel(k, ts)
    ensures ParseExpression(Cons(LPAREN, ts)) == ParseExpression(ts)
  {
    hide ParseLevel;
    CastDropsBracket(ts);
    SameAtEveryLevel(k, Cons(LPAREN, ts), ts);
    SameAtEveryLevel(0, Cons(LPAREN, ts), ts);
  }

  /** A listing that starts with a bracket is that of a tree with a cast in front; a type follows. */
  lemma {:induction false} BracketOpensCast(e: Expr, rest: seq<Token>)
    requires Printable(e) && Peek(List(e, rest)) == LPAREN
    ensures StartsType(Peek(List(e, rest)[1..]))
    decreases e, 0
  {
    hide ListType;
    match e
    case Binary(op, l, r) => BracketOpensCastAt(LevelOf(op), l, Cons(op, ListAt(LevelOf(op) + 1, r, rest)));
    case Assign(l, r) => BracketOpensCastAt(0, l, Cons(EQ, List(r, rest)));
    case Cast(t, x) => TypeOpens(t, Cons(RPAREN, ListAt(10, x, rest)));
    case _ => ListingStarts(e, rest);
  }

  lemma {:induction false} BracketOpensCastAt(level: int, e: Expr, rest: seq<Token>)
    requires Printable(e) && Peek(ListAt(level, e, rest)) == LPAREN
    ensures StartsType(Peek(ListAt(level, e, rest)[1..]))
    decreases e, 1
  {
    if Prec(e) >= level { BracketOpensCast(e, rest); }
  }

  lemma TypeOpens(t: CType, rest: seq<Token>)
    requires SpecifiedType(t)
    ensures StartsType(Peek(ListType(t, rest)))
  {
  }

  /** `( e )` and what follows it. */
  function Bracketed(e: Expr, rest: seq<Token>): seq<Token> { Cons(LPAREN, List(e, Cons(RPAREN, rest))) }

  /** Directly under a prefix operator the brackets group, any expression in them. */
  lemma BracketGroupsUnderPrefix(e: Expr, rest: seq<Token>)
    requires Printable(e)
    ensures ParseUnary(Bracketed(e, rest)) == PostfixTail(e, rest)
  {
    hide List; hide PostfixTail;
    GroupListing(e, rest);
  }

  /** Of doubled brackets the outer one is dropped and the inner pair groups: one bracket is left over. */
  lemma DoubledBracketsGroup(e: Expr, rest: seq<Token>)
    requires Printable(e)
    ensures ParseCast(Cons(LPAREN, Bracketed(e, Cons(RPAREN, rest)))) == Ok(e, Cons(RPAREN, rest))
  {
    hide List;
    CastDropsBracket(Bracketed(e, Cons(RPAREN, rest)));
    BracketGroupsUnderPrefix(e, Cons(RPAREN, rest));
  }

  /** A bracket in front of a cast is an error: the cast's own bracket is taken for a group. */
  lemma BracketedCastFails(k: nat, e: Expr, rest: seq<Token>)
    requires k <= 10 && Printable(e) && Peek(List(e, Cons(RPAREN, rest))) == LPAREN
    ensures ParseLevel(k, Bracketed(e, rest)).Fail? && ParseExpression(Bracketed(e, rest)).Fail?
  {
    hide List; hide Printable;
    var inner := List(e, Cons(RPAREN, rest));
    BracketOpensCast(e, Cons(RPAREN, rest));
    CastDropsBracket(inner);
    assert inner == [inner[0]] + inner[1..];
    TypeIsNoExpression(inner[1..]);
    assert ParsePrimary(inner).Fail?;
    UnaryIsPostfix(inner);
    FailsAtEveryLevel(k, Bracketed(e, rest));
    FailsAtEveryLevel(0, Bracketed(e, rest));
  }

  lemma TypeIsNoExpression(ts: seq<Token>)
    requires StartsType(Peek(ts))
    ensures ParseExpression(ts).Fail?
  {
    UnaryIsPostfix(ts);
    assert ParsePrimary(ts).Fail?;
    FailsAtEveryLevel(0, ts);
  }

  lemma {:induction false} FailsAtEveryLevel(k: nat, ts: seq<Token>)
    requires k <= 10 && ParseCast(ts).Fail?
    ensures ParseLevel(k, ts).Fail?
    decreases 10 - k
  {
    if k < 10 { FailsAtEveryLevel(k + 1, ts); }
  }

  /**
    A bracketed expression: unless its listing starts with a cast it is read without its
    brackets, the closing one being left over; if it does, reading fails.
   */
  lemma BracketIsSwallowed(e: Expr, rest: seq<Token>)
    requires Printable(e)
    ensures var inner := List(e, Cons(RPAREN, rest));
      if Peek(inner) != LPAREN then ParseExpression(Bracketed(e, rest)) == Ok(e, Cons(RPAREN, rest))
      else ParseExpression(Bracketed(e, rest)).Fail?
  {
    hide List; hide ParseExpression;
    var inner := List(e, Cons(RPAREN, rest));
    ListingStarts(e, Cons(RPAREN, rest));
    if Peek(inner) != LPAREN {
      BracketVanishes(0, inner);
      ExpressionListing(e, Cons(RPAREN, rest));
    } else {
      BracketedCastFails(0, e, rest);
    }
  }

  /** Brackets group exactly directly under a prefix operator, at no other level. */
  lemma GroupsExactlyUnderPrefix(level: nat, e: Expr, rest: seq<Token>)
    requires level <= 11 && Printable(e) && !IsPostfixToken(Peek(rest))
    ensures ReadAt(level, Bracketed(e, rest)) == Ok(e, rest) <==> level == 11
  {
    hide List; hide ParseLevel; hide ParseExpression;
    var inner := List(e, Cons(RPAREN, rest));
    if level == 11 {
      BracketGroupsUnderPrefix(e, rest);
    } else if Peek(inner) == LPAREN {
      BracketedCastFails(level, e, rest);
    } else {
      ListingStarts(e, Cons(RPAREN, rest));
      BracketVanishes(level, inner);
      ExpressionListing(e, Cons(RPAREN, rest));
      LevelsReadLess(level, inner, e, Cons(RPAREN, rest));
    }
  }

  /** No level reads further than the whole expression. */
  lemma LevelsReadLess(k: nat, ts: seq<Token>, e: Expr, rest: seq<Token>)
    requires k <= 10 && ParseExpression(ts) == Ok(e, rest)
    ensures ParseLevel(k, ts).Ok? && |rest| <= |ParseLevel(k, ts).rest|
  {
    hide ParseLevel;
    TighterReadsLess(0, k, ts);
  }

  // ---- postfix operators ----

  /**
    A postfix operator behind any operand takes the token after it, and is read off that
    token.  The end of the tokens is not taken.
   */
  lemma PostfixTakesNextToken(e: Expr, op: TokenKind, ts: seq<Token>)
    requires Printable(e) && (op == PLUSPLUS || op == MINUSMINUS)
    ensures var read := if Peek(ts) == PLUSPLUS then PLUSPLUS else MINUSMINUS;
      ParseUnary(ListAt(12, e, Cons(op, ts))) == PostfixTail(Unary(read, e, false), Advance(ts))
  {
    hide ListAt;
    PostfixOperandListing(e, Cons(op, ts));
    assert Cons(op, ts)[1..] == ts;
  }

  /** So behind any operand it is read as written exactly when it is `--` and nothing follows. */
  lemma PostfixRightExactlyWhen(e: Expr, op: TokenKind, ts: seq<Token>)
    requires Printable(e) && (op == PLUSPLUS || op == MINUSMINUS)
    ensures ParseExpression(ListAt(12, e, Cons(op, ts))) == Ok(Unary(op, e, false), ts)
      <==> op == MINUSMINUS && Peek(ts) == END
  {
    hide ListAt; hide ParseLevel; hide PostfixTail;
    var all := ListAt(12, e, Cons(op, ts));
    var node := Unary(if Peek(ts) == PLUSPLUS then PLUSPLUS else MINUSMINUS, e, false);
    PostfixTakesNextToken(e, op, ts);
    ListingAtStarts(12, e, Cons(op, ts));
    assert ParseCast(all) == ParseUnary(all);
    if Peek(ts) == END {
      AtEnd(node, ts);
      LevelsEnd(0, all, node, ts);
    } else if ParseExpression(all).Ok? {
      LevelsReadLess(10, all, ParseExpression(all).value, ParseExpression(all).rest);
      CastLevel(all);
    }
  }

  lemma CastLevel(ts: seq<Token>)
    ensures ParseLevel(10, ts) == ParseCast(ts)
  {
  }

  lemma AtEnd(node: Expr, ts: seq<Token>)
    requires Peek(ts) == END
    ensures Advance(ts) == ts && PostfixTail(node, ts) == Ok(node, ts)
  {
  }

  lemma {:induction false} LevelsEnd(k: nat, ts: seq<Token>, e: Expr, after: seq<Token>)
    requires k <= 10 && ParseCast(ts) == Ok(e, after) && Peek(after) == END
    ensures ParseLevel(k, ts) == Ok(e, after)
    decreases 10 - k
  {
    if k < 10 { LevelsEnd(k + 1, ts, e, after); }
  }

  /** With a token behind it, the operator reads like the doubled spelling of the one read. */
  lemma PostfixReadsLikeDoubled(e: Expr, op: TokenKind, ts: seq<Token>)
    requires Printable(e) && (op == PLUSPLUS || op == MINUSMINUS) && Peek(ts) != END
    ensures var read := if Peek(ts) == PLUSPLUS then PLUSPLUS else MINUSMINUS;
      ParseExpression(ListAt(12, e, Cons(op, ts))) == ParseExpression(ListAt(12, e, Cons(read, Cons(read, ts[1..]))))
  {
    hide ListAt; hide ParseLevel; hide PostfixTail;
    var read := if Peek(ts) == PLUSPLUS then PLUSPLUS else MINUSMINUS;
    var a, b := ListAt(12, e, Cons(op, ts)), ListAt(12, e, Cons(read, Cons(read, ts[1..])));
    PostfixTakesNextToken(e, op, ts);
    PostfixTakesNextToken(e, read, Cons(read, ts[1..]));
    assert Advance(Cons(read, ts[1..])) == ts[1..] == Advance(ts);
    ListingAtStarts(12, e, Cons(op, ts));
    ListingAtStarts(12, e, Cons(read, Cons(read, ts[1..])));
    SameAtEveryLevel(0, a, b);
  }

  // ---- compound assignment ----

  /** Any of the four assignment operators, between any target and any value, is read as the plain one. */
  lemma CompoundOperatorIsLost(target: Expr, op: TokenKind, e: Expr, rest: seq<Token>)
    requires Printable(target) && IsAssignOp(op) && Printable(e) && StopsExpression(rest)
    ensures ParseExpression(ListAt(0, target, Cons(op, List(e, rest)))) == Ok(Assign(target, e), rest)
  {
    hide ListAt; hide List; hide ParseLevel;
    OperandListing(0, target, Cons(op, List(e, rest)));
    ExpressionListing(e, rest);
    assert Cons(op, List(e, rest))[1..] == List(e, rest);
  }

  /** The tree read lists back to the tokens, the operator with them, exactly when it is the plain one. */
  lemma AssignmentReadBackExactlyWhen(target: Expr, op: TokenKind, e: Expr, rest: seq<Token>)
    requires Printable(target) && IsAssignOp(op) && Printable(e) && StopsExpression(rest)
    ensures var ts := ListAt(0, target, Cons(op, List(e, rest)));
      ParseExpression(ts).Ok? && (List(ParseExpression(ts).value, ParseExpression(ts).rest) == ts <==> op == EQ)
  {
    hide ListAt; hide ParseExpression;
    CompoundOperatorIsLost(target, op, e, rest);
    ListingAtSplits(0, target, Cons(op, List(e, rest)));
    ListingAtSplits(0, target, Cons(EQ, List(e, rest)));
    var p := ListAt(0, target, []);
    var a, b := Cons(op, List(e, rest)), Cons(EQ, List(e, rest));
    if p + a == p + b {
      assert (p + a)[|p|] == a[0] && (p + b)[|p|] == b[0];
    }
  }

  /** What follows a tree only follows its listing. */
  lemma {:induction false} ListingSplits(e: Expr, rest: seq<Token>)
    requires Printable(e)
    ensures List(e, rest) == List(e, []) + rest
    decreases e, 0, 1
  {
    hide ListAt; hide ListArgs; hide ListType;
    match e
    case Binary(op, l, r) =>
      ListingAtSplits(LevelOf(op) + 1, r, rest);
      ConsSplits(op, ListAt(LevelOf(op) + 1, r, []), rest);
      BehindTree(LevelOf(op), l, Cons(op, ListAt(LevelOf(op) + 1, r, [])), rest);
    case Assign(l, r) =>
      ListingSplits(r, rest);
      ConsSplits(EQ, List(r, []), rest);
      BehindTree(0, l, Cons(EQ, List(r, [])), rest);
    case Variable(_) | Constant(_) | StringLit(_) | Asm(_) =>
    case Unary(_, x, true) => PrefixSplits(e, rest);
    case AddressOf(x) => PrefixSplits(e, rest);
    case Deref(x) => PrefixSplits(e, rest);
    case SizeOf(x) => PrefixSplits(e, rest);
    case Cast(t, x) => PrefixSplits(e, rest);
    case Unary(op, x, false) => DoubledSplits(op, x, rest);
    case Call(_, _) => PostfixSplits(e, rest);
    case Index(_, _) => PostfixSplits(e, rest);
    case Member(_, _) => PostfixSplits(e, rest);
  }

  lemma {:induction false} PrefixSplits(e: Expr, rest: seq<Token>)
    requires Printable(e) && !e.Binary? && (Prec(e) == 10 || Prec(e) == 11)
    ensures List(e, rest) == List(e, []) + rest
    decreases e, 0, 0
  {
    hide ListAt; hide ListType; hide Cons;
    var level := Prec(e);
    var x := e.operand;
    ListingAtSplits(level, x, rest);
    var tail := ListAt(level, x, []);
    if e.Cast? {
      ConsSplits(RPAREN, tail, rest);
      TypeSplits(e.target, Cons(RPAREN, tail), rest);
      ConsSplits(LPAREN, ListType(e.target, Cons(RPAREN, tail)), rest);
    } else {
      ConsSplits(if e.Unary? then e.uop else if e.AddressOf? then AMPER else if e.Deref? then STAR
        else SIZEOF, tail, rest);
    }
  }

  lemma {:induction false} PostfixSplits(e: Expr, rest: seq<Token>)
    requires Printable(e) && (e.Call? || e.Index? || e.Member?)
    ensures List(e, rest) == List(e, []) + rest
    decreases e, 0, 0
  {
    hide ListAt; hide ListArgs; hide Cons;
    assert [] + rest == rest;
    match e
    case Call(f, args) =>
      ConsSplits(RPAREN, [], rest);
      ArgsSplit(args, Cons(RPAREN, []), rest);
      ConsSplits(LPAREN, ListArgs(args, Cons(RPAREN, [])), rest);
    case Index(a, i) =>
      ConsSplits(RBRACKET, [], rest);
      BehindWhole(i, Cons(RBRACKET, []), rest);
      ConsSplits(LBRACKET, List(i, Cons(RBRACKET, [])), rest);
      BehindTree(12, a, Cons(LBRACKET, List(i, Cons(RBRACKET, []))), rest);
    case Member(o, m) =>
      assert ConsName(m, rest) == ConsName(m, []) + rest;
      ConsSplits(DOT, ConsName(m, []), rest);
      ConsSplits(ARROW, ConsName(m, []), rest);
      if o.Deref? { BehindTree(12, o.operand, Cons(ARROW, ConsName(m, [])), rest); }
      else { BehindTree(12, o, Cons(DOT, ConsName(m, [])), rest); }
  }

  lemma {:induction false} BehindWhole(e: Expr, after: seq<Token>, rest: seq<Token>)
    requires Printable(e)
    ensures List(e, after + rest) == List(e, after) + rest
    decreases e, 1
  {
    hide List;
    ListingSplits(e, after + rest);
    ListingSplits(e, after);
    assert List(e, []) + (after + rest) == List(e, []) + after + rest;
  }

  lemma {:induction false} ListingAtSplits(level: int, e: Expr, rest: seq<Token>)
    requires Printable(e)
    ensures ListAt(level, e, rest) == ListAt(level, e, []) + rest
    decreases e, 2
  {
    hide List;
    if Prec(e) >= level {
      ListingSplits(e, rest);
    } else {
      GroupSplits(e, rest);
    }
  }

  lemma {:induction false} GroupSplits(e: Expr, rest: seq<Token>)
    requires Printable(e)
    ensures ListGrouped(e, rest) == ListGrouped(e, []) + rest
    decreases e, 1
  {
    hide List; hide Printable;
    ListingSplits(e, Cons(RPAREN, rest));
    ListingSplits(e, Cons(RPAREN, []));
    var p := List(e, []);
    assert p + Cons(RPAREN, rest) == p + Cons(RPAREN, []) + rest;
    ConsSplits(LPAREN, p + Cons(RPAREN, []), rest);
    ConsSplits(PLUS, Cons(LPAREN, p + Cons(RPAREN, [])), rest);
  }

  lemma ConsSplits(k: TokenKind, a: seq<Token>, rest: seq<Token>)
    ensures Cons(k, a + rest) == Cons(k, a) + rest
  {
    assert [Sym(k)] + (a + rest) == [Sym(k)] + a + rest;
  }

  lemma {:induction false} BehindTree(level: int, e: Expr, after: seq<Token>, rest: seq<Token>)
    requires Printable(e)
    ensures ListAt(level, e, after + rest) == ListAt(level, e, after) + rest
    decreases e, 3
  {
    hide ListAt;
    ListingAtSplits(level, e, after + rest);
    ListingAtSplits(level, e, after);
    assert ListAt(level, e, []) + (after + rest) == ListAt(level, e, []) + after + rest;
  }

  lemma {:induction false} DoubledSplits(op: TokenKind, e: Expr, rest: seq<Token>)
    requires Printable(e)
    ensures ListAt(12, e, Cons(op, Cons(op, rest))) == ListAt(12, e, Cons(op, Cons(op, []))) + rest
    decreases e, 4
  {
    hide ListAt;
    ConsSplits(op, [], rest);
    assert [] + rest == rest;
    ConsSplits(op, Cons(op, []), rest);
    BehindTree(12, e, Cons(op, Cons(op, [])), rest);
  }

  lemma TypeSplits(t: CType, after: seq<Token>, rest: seq<Token>)
    ensures ListType(t, after + rest) == ListType(t, after) + rest
  {
    hide ListBase; hide ConsIf;
    forall f: bool, k: TokenKind, a: seq<Token> ensures ConsIf(f, k, a + rest) == ConsIf(f, k, a) + rest {
      ConsIfSplits(f, k, a, rest);
    }
    BaseSplits(t.base, after, rest);
  }

  lemma ConsIfSplits(f: bool, k: TokenKind, a: seq<Token>, rest: seq<Token>)
    ensures ConsIf(f, k, a + rest) == ConsIf(f, k, a) + rest
  {
    ConsSplits(k, a, rest);
  }

  lemma BaseSplits(b: DataType, a: seq<Token>, rest: seq<Token>)
    ensures ListBase(b, a + rest) == ListBase(b, a) + rest
  {
    hide Cons;
    forall k: TokenKind, x: seq<Token> ensures Cons(k, x + rest) == Cons(k, x) + rest {
      ConsSplits(k, x, rest);
    }
    assert ConsName("", a + rest) == ConsName("", a) + rest;
  }

  lemma {:induction false} ArgsSplit(args: seq<Expr>, after: seq<Token>, rest: seq<Token>)
    requires forall a | a in args :: Printable(a)
    ensures ListArgs(args, after + rest) == ListArgs(args, after) + rest
    decreases args, 0
  {
    hide List;
    if args != [] {
      var more := if |args| == 1 then after else Cons(COMMA, ListArgs(args[1..], after));
      if |args| > 1 {
        ArgsSplit(args[1..], after, rest);
        ConsSplits(COMMA, ListArgs(args[1..], after), rest);
      }
      BehindWhole(args[0], more, rest);
    }
  }

  /** The other compound operators are not taken at all: the expression ends before them. */
  lemma OtherCompoundOperatorsEnd(target: Expr, op: TokenKind, ts: seq<Token>)
    requires Printable(target)
    requires op in {SLASH_EQ, PERCENT_EQ, AMPER_EQ, PIPE_EQ, CARET_EQ, LSHIFT_EQ, RSHIFT_EQ}
    ensures ParseExpression(ListAt(0, target, Cons(op, ts))) == Ok(target, Cons(op, ts))
  {
    hide ListAt; hide ParseLevel;
    OperandListing(0, target, Cons(op, ts));
  }
}
