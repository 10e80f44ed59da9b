/**
  A token listing for every tree the parser can build.

  The listing writes each operator between its operands and brackets an operand only
  where the grammar would read it otherwise.  `parse_cast` takes a `(` without ever taking
  the matching `)`, so a plain bracket does not group; but unary `+` leaves no node and its
  operand does accept brackets, so `+ ( e )` groups at every level.  Listings are written
  with a continuation: `List(e, rest)` is the listing of `e` followed by `rest`.
 */
module Listing {
  import opened Ast
  import opened Grammar

  function Cons(k: TokenKind, rest: seq<Token>): seq<Token> { [Sym(k)] + rest }

  function ConsIf(c: bool, k: TokenKind, rest: seq<Token>): seq<Token> {
    if c then Cons(k, rest) else rest
  }

  function ConsName(name: string, rest: seq<Token>): seq<Token> { [Token(IDENT, name, 0)] + rest }

  // ---- types ----

  /** The types a type specifier can produce. */
  predicate SpecifiedBase(b: DataType) {
    b == INT || b == UINT || b == LONG || b == ULONG || b == CHAR || b == UCHAR || b == VOID || b == STRUCT
  }

  predicate SpecifiedType(t: CType) {
    SpecifiedBase(t.base) && t.pointerDepth == 0 && t.arraySize == 0
  }

  function ListBase(b: DataType, rest: seq<Token>): seq<Token> {
    match b
    case UINT => Cons(UNSIGNED, Cons(INT_KW, rest))
    case LONG => Cons(LONG_KW, Cons(INT_KW, rest))
    case ULONG => Cons(UNSIGNED, Cons(LONG_KW, Cons(INT_KW, rest)))
    case CHAR => Cons(CHAR_KW, rest)
    case UCHAR => Cons(UNSIGNED, Cons(CHAR_KW, rest))
    case VOID => Cons(VOID_KW, rest)
    case STRUCT => Cons(STRUCT_KW, ConsName("", rest))
    case _ => Cons(INT_KW, rest)
  }

  /** No statement starts with `volatile`, so a type whose only qualifier it is gets `signed` first. */
  function ListType(t: CType, rest: seq<Token>): seq<Token> {
    ConsIf(t.isVolatile && !t.isConst, SIGNED,
           ConsIf(t.isConst, CONST, ConsIf(t.isVolatile, VOLATILE, ListBase(t.base, rest))))
  }

  lemma TypeParses(t: CType, rest: seq<Token>)
    requires SpecifiedType(t)
    ensures ParseTypeSpec(ListType(t, rest)) == Ok(t, rest)
  {
    var f := SpecFlags(t.isConst, t.isVolatile, false, false);
    assert ParseTypeSpec(ListType(t, rest)) == TypeSpecFrom(f, ListBase(t.base, rest)) by {
      var r2 := ConsIf(t.isVolatile, VOLATILE, ListBase(t.base, rest));
      assert TypeSpecFrom(f.(isVolatile := false), r2) == TypeSpecFrom(f, ListBase(t.base, rest));
      var r1 := ConsIf(t.isConst, CONST, r2);
      assert TypeSpecFrom(NoFlags, r1) == TypeSpecFrom(f.(isVolatile := false), r2);
    }
    BaseParses(t.base, f, rest);
  }

  /** `long`, `unsigned long` and `unsigned char` in front of what ends them. */
  lemma LongParses(u: SpecFlags, rest: seq<Token>)
    ensures var ints := Cons(INT_KW, rest);
      TypeSpecFrom(u, ints) == Ok(FinishType(u, NONE), rest)
      && TypeSpecFrom(u, Cons(LONG_KW, ints)) == Ok(FinishType(u.(isLong := true), NONE), rest)
  {
    var ints := Cons(INT_KW, rest);
    assert Cons(LONG_KW, ints)[1..] == ints && ints[1..] == rest;
    assert TypeSpecFrom(u.(isLong := true), ints) == Ok(FinishType(u.(isLong := true), NONE), rest);
  }

  lemma BaseParses(b: DataType, f: SpecFlags, rest: seq<Token>)
    requires SpecifiedBase(b) && !f.isUnsigned && !f.isLong
    ensures TypeSpecFrom(f, ListBase(b, rest)) == Ok(CType(b, f.isConst, f.isVolatile, 0, 0), rest)
  {
    var u := f.(isUnsigned := true);
    LongParses(f, rest);
    LongParses(u, rest);
    assert TypeSpecFrom(u, Cons(CHAR_KW, rest)) == Ok(FinishType(u, UCHAR), rest);
  }

  lemma {:induction false} TypeSpecIsSpecified(f: SpecFlags, ts: seq<Token>)
    ensures TypeSpecFrom(f, ts).Ok? ==> SpecifiedType(TypeSpecFrom(f, ts).value)
    decreases |ts|
  {
    var k := Peek(ts);
    if k == CONST { TypeSpecIsSpecified(f.(isConst := true), ts[1..]); }
    else if k == VOLATILE { TypeSpecIsSpecified(f.(isVolatile := true), ts[1..]); }
    else if k == UNSIGNED { TypeSpecIsSpecified(f.(isUnsigned := true), ts[1..]); }
    else if k == SIGNED { TypeSpecIsSpecified(f, ts[1..]); }
    else if k == LONG_KW { TypeSpecIsSpecified(f.(isLong := true), ts[1..]); }
  }

  // ---- expressions ----

  /** How tightly the root of a tree binds: -1 assignment, 0..9 binary, 10 cast, 11 prefix, 12 postfix. */
  function Prec(e: Expr): int {
    match e
    case Assign(_, _) => -1
    case Binary(op, _, _) => LevelOf(op)
    case Cast(_, _) => 10
    case Unary(_, _, true) | AddressOf(_) | Deref(_) | SizeOf(_) => 11
    case _ => 12
  }

  /** Trees whose operators and cast types are ones the grammar has. */
  predicate Printable(e: Expr)
    decreases e
  {
    match e
    case Variable(_) | Constant(_) | StringLit(_) | Asm(_) => true
    case Binary(op, l, r) => 0 <= LevelOf(op) && Printable(l) && Printable(r)
    case Unary(op, x, prefix) =>
      (if prefix then IsPrefixOp(op) else op == PLUSPLUS || op == MINUSMINUS) && Printable(x)
    case AddressOf(x) => Printable(x)
    case Deref(x) => Printable(x)
    case SizeOf(x) => Printable(x)
    case Cast(t, x) => SpecifiedType(t) && Printable(x)
    case Call(_, args) => forall a | a in args :: Printable(a)
    case Index(a, i) => Printable(a) && Printable(i)
    case Member(o, _) => Printable(o)
    case Assign(l, r) => Printable(l) && Printable(r)
  }

  function List(e: Expr, rest: seq<Token>): seq<Token>
    decreases e, 0
  {
    match e
    case Variable(name) => ConsName(name, rest)
    case Constant(v) => [Token(NUMBER, "", v)] + rest
    case StringLit(s) => [Token(STRING, s, 0)] + rest
    case Asm(code) => [Token(INLINE_ASM, code, 0)] + rest
    case Binary(op, l, r) => ListAt(LevelOf(op), l, Cons(op, ListAt(LevelOf(op) + 1, r, rest)))
    case Unary(op, x, prefix) =>
      // a postfix operator takes the token after it, so it is written twice
      if prefix then Cons(op, ListAt(11, x, rest)) else ListAt(12, x, Cons(op, Cons(op, rest)))
    case AddressOf(x) => Cons(AMPER, ListAt(11, x, rest))
    case Deref(x) => Cons(STAR, ListAt(11, x, rest))
    case SizeOf(x) => Cons(SIZEOF, ListAt(11, x, rest))
    case Cast(t, x) => Cons(LPAREN, ListType(t, Cons(RPAREN, ListAt(10, x, rest))))
    case Call(f, args) => ConsName(f, Cons(LPAREN, ListArgs(args, Cons(RPAREN, rest))))
    case Index(a, i) => ListAt(12, a, Cons(LBRACKET, List(i, Cons(RBRACKET, rest))))
    case Member(Deref(o), m) => ListAt(12, o, Cons(ARROW, ConsName(m, rest)))
    case Member(o, m) => ListAt(12, o, Cons(DOT, ConsName(m, rest)))
    case Assign(l, r) => ListAt(0, l, Cons(EQ, List(r, rest)))
  }

  /** The listing of `e` where the grammar asks for a tree binding at least as tightly as `level`. */
  function ListAt(level: int, e: Expr, rest: seq<Token>): seq<Token>
    decreases e, 2
  {
    if Prec(e) >= level then List(e, rest) else ListGrouped(e, rest)
  }

  function ListGrouped(e: Expr, rest: seq<Token>): seq<Token>
    decreases e, 1
  {
    Cons(PLUS, Cons(LPAREN, List(e, Cons(RPAREN, rest))))
  }

  function ListArgs(args: seq<Expr>, rest: seq<Token>): seq<Token>
    decreases args
  {
    if args == [] then rest
    else if |args| == 1 then List(args[0], rest)
    else List(args[0], Cons(COMMA, ListArgs(args[1..], rest)))
  }

  predicate StartsExpression(k: TokenKind) {
    k == IDENT || k == NUMBER || k == STRING || k == INLINE_ASM || k == LPAREN || k == PLUS || k == AMPER
    || k == STAR || k == SIZEOF || IsPrefixOp(k)
  }

  /** Every listing starts with a token that starts an expression; only a cast starts with a bracket. */
  lemma {:induction false} ListingStarts(e: Expr, rest: seq<Token>)
    requires Printable(e)
    ensures StartsExpression(Peek(List(e, rest)))
    ensures Prec(e) >= 11 ==> Peek(List(e, rest)) != LPAREN
    decreases e, 0
  {
    match e
    case Binary(op, l, r) => ListingAtStarts(LevelOf(op), l, Cons(op, ListAt(LevelOf(op) + 1, r, rest)));
    case Unary(op, x, prefix) => if !prefix { ListingAtStarts(12, x, Cons(op, Cons(op, rest))); }
    case Index(a, i) => ListingAtStarts(12, a, Cons(LBRACKET, List(i, Cons(RBRACKET, rest))));
    case Member(o, m) =>
      if o.Deref? { ListingAtStarts(12, o.operand, Cons(ARROW, ConsName(m, rest))); }
      else { ListingAtStarts(12, o, Cons(DOT, ConsName(m, rest))); }
    case Assign(l, r) => ListingAtStarts(0, l, Cons(EQ, List(r, rest)));
    case _ =>
  }

  lemma {:induction false} ListingAtStarts(level: int, e: Expr, rest: seq<Token>)
    requires Printable(e)
    ensures StartsExpression(Peek(ListAt(level, e, rest)))
    ensures level >= 11 ==> Peek(ListAt(level, e, rest)) != LPAREN
    decreases e, 1
  {
    if Prec(e) >= level { ListingStarts(e, rest); }
  }
}
