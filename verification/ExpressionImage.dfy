/**
  What the expression parser can return: on every token stream only printable trees, and on
  streams where brackets, unary `+` and postfix `++`/`--` do not occur out of their place,
  precedence-normal trees whose listing is the tokens consumed.
 */
module ExpressionImage {
  import opened Ast
  import opened Grammar
  import opened Listing
  import opened ExpressionTheorems

  // ---- every stream ----

  lemma {:induction false} AssignmentPrintable(ts: seq<Token>)
    ensures ParseExpression(ts) == ParseAssignment(ts)
    ensures ParseAssignment(ts).Ok? ==> Printable(ParseAssignment(ts).value)
    decreases |ts|, 16
  {
    LevelPrintable(0, ts);
    var first := ParseLevel(0, ts);
    if first.Ok? && IsAssignOp(Peek(first.rest)) { AssignmentPrintable(first.rest[1..]); }
  }

  lemma {:induction false} LevelPrintable(k: nat, ts: seq<Token>)
    requires k <= 10
    ensures ParseLevel(k, ts).Ok? ==> Printable(ParseLevel(k, ts).value)
    decreases |ts|, 15 - k
  {
    if k == 10 {
      CastPrintable(ts);
    } else {
      LevelPrintable(k + 1, ts);
      var first := ParseLevel(k + 1, ts);
      if first.Ok? { LevelTailPrintable(k, first.value, first.rest); }
    }
  }

  lemma {:induction false} LevelTailPrintable(k: nat, node: Expr, ts: seq<Token>)
    requires k < 10 && Printable(node)
    ensures LevelTail(k, node, ts).Ok? ==> Printable(LevelTail(k, node, ts).value)
    decreases |ts|, 0
  {
    if LevelOf(Peek(ts)) == k {
      LevelPrintable(k + 1, ts[1..]);
      var right := ParseLevel(k + 1, ts[1..]);
      if right.Ok? { LevelTailPrintable(k, Binary(Peek(ts), node, right.value), right.rest); }
    }
  }

  lemma {:induction false} CastPrintable(ts: seq<Token>)
    ensures ParseCast(ts).Ok? ==> Printable(ParseCast(ts).value)
    decreases |ts|, 4
  {
    UnaryPrintable(ts);
    if Peek(ts) == LPAREN {
      TypeSpecIsSpecified(NoFlags, ts[1..]);
      var t := ParseTypeSpec(ts[1..]);
      if t.Ok? {
        if Peek(t.rest) == RPAREN { CastPrintable(t.rest[1..]); } else { UnaryPrintable(t.rest); }
      }
    }
  }

  lemma {:induction false} UnaryPrintable(ts: seq<Token>)
    ensures ParseUnary(ts).Ok? ==> Printable(ParseUnary(ts).value)
    decreases |ts|, 3
  {
    var k := Peek(ts);
    if IsPrefixOp(k) || k == AMPER || k == STAR || k == PLUS || k == SIZEOF {
      UnaryPrintable(ts[1..]);
    } else {
      PostfixPrintable(ts);
    }
  }

  lemma {:induction false} PostfixPrintable(ts: seq<Token>)
    ensures ParsePostfix(ts).Ok? ==> Printable(ParsePostfix(ts).value)
    decreases |ts|, 2
  {
    if Peek(ts) == LPAREN { AssignmentPrintable(ts[1..]); }
    var node := ParsePrimary(ts);
    if node.Ok? { PostfixTailPrintable(node.value, node.rest); }
  }

  lemma {:induction false} PostfixTailPrintable(node: Expr, ts: seq<Token>)
    requires Printable(node)
    ensures PostfixTail(node, ts).Ok? ==> Printable(PostfixTail(node, ts).value)
    decreases |ts|, 1
  {
    var k := Peek(ts);
    if k == LPAREN {
      CallTailPrintable(node, ts);
    } else if k == LBRACKET {
      IndexTailPrintable(node, ts);
    } else if k == DOT || k == ARROW {
      if Peek(ts[1..]) == IDENT {
        PostfixTailPrintable(Member(if k == DOT then node else Deref(node), ts[1].text), ts[1..][1..]);
      }
    } else if k == PLUSPLUS || k == MINUSMINUS {
      var op := if Peek(ts[1..]) == PLUSPLUS then PLUSPLUS else MINUSMINUS;
      PostfixTailPrintable(Unary(op, node, false), Advance(ts[1..]));
    }
  }

  lemma {:induction false} IndexTailPrintable(node: Expr, ts: seq<Token>)
    requires Printable(node) && Peek(ts) == LBRACKET
    ensures PostfixTail(node, ts).Ok? ==> Printable(PostfixTail(node, ts).value)
    decreases |ts|, 0
  {
    AssignmentPrintable(ts[1..]);
    var i := ParseExpression(ts[1..]);
    if i.Ok? && Peek(i.rest) == RBRACKET { PostfixTailPrintable(Index(node, i.value), i.rest[1..]); }
  }

  lemma {:induction false} CallTailPrintable(node: Expr, ts: seq<Token>)
    requires Printable(node) && Peek(ts) == LPAREN
    ensures PostfixTail(node, ts).Ok? ==> Printable(PostfixTail(node, ts).value)
    decreases |ts|, 0
  {
    if !node.Variable? {
      PostfixTailPrintable(node, ts[1..]);
    } else if Peek(ts[1..]) == RPAREN {
      PostfixTailPrintable(Call(node.name, []), ts[2..]);
    } else {
      ArgsPrintable([], ts[1..]);
      var args := ArgsFrom([], ts[1..]);
      if args.Ok? && Peek(args.rest) == RPAREN { PostfixTailPrintable(Call(node.name, args.value), args.rest[1..]); }
    }
  }

  lemma {:induction false} ArgsPrintable(args: seq<Expr>, ts: seq<Token>)
    requires forall a | a in args :: Printable(a)
    ensures ArgsFrom(args, ts).Ok? ==> forall a | a in ArgsFrom(args, ts).value :: Printable(a)
    decreases |ts|, 18
  {
    AssignmentPrintable(ts);
    var e := ParseExpression(ts);
    if e.Ok? && Peek(e.rest) == COMMA { ArgsPrintable(args + [e.value], e.rest[1..]); }
  }

  /**
    The trees the expression parser can return are exactly the printable ones.
   */
  lemma ParserImage(e: Expr)
    ensures Printable(e) <==> exists ts: seq<Token>, rest :: ParseExpression(ts) == Ok(e, rest)
  {
    if Printable(e) {
      ExpressionListing(e, []);
    }
    forall ts: seq<Token>, rest | ParseExpression(ts) == Ok(e, rest) ensures Printable(e) {
      AssignmentPrintable(ts);
    }
  }

  /** Listing what was parsed and parsing again gives the same tree, however it was first spelled. */
  lemma RespellingIsStable(ts: seq<Token>)
    requires ParseExpression(ts).Ok?
    ensures ParseExpression(List(ParseExpression(ts).value, [])) == Ok(ParseExpression(ts).value, [])
  {
    AssignmentPrintable(ts);
    ExpressionListing(ParseExpression(ts).value, []);
  }

  // ---- streams in precedence-normal spelling ----

  /** Each operand binds as tightly as its place asks, so the listing needs no grouping. */
  predicate Normal(e: Expr)
    decreases e
  {
    match e
    case Variable(_) | Constant(_) | StringLit(_) | Asm(_) => true
    case Binary(op, l, r) => 0 <= LevelOf(op) <= Prec(l) && LevelOf(op) < Prec(r) && Normal(l) && Normal(r)
    case Unary(op, x, prefix) => prefix && IsPrefixOp(op) && 11 <= Prec(x) && Normal(x)
    case AddressOf(x) => 11 <= Prec(x) && Normal(x)
    case Deref(x) => 11 <= Prec(x) && Normal(x)
    case SizeOf(x) => 11 <= Prec(x) && Normal(x)
    case Cast(_, _) => false
    case Call(_, args) => forall a | a in args :: Normal(a)
    case Index(a, i) => Prec(a) == 12 && Normal(a) && Normal(i)
    case Member(Deref(o), _) => Prec(o) == 12 && Normal(o)
    case Member(o, _) => Prec(o) == 12 && Normal(o)
    case Assign(l, r) => 0 <= Prec(l) && Normal(l) && Normal(r)
  }

  datatype Scan = AtOperand | AtCallOpen | AfterName | AfterValue | AfterDot

  /**
    A left-to-right check a caller can run: no `(` or unary `+` where an operand is due, a `(`
    only right after a plain name, no postfix `++`/`--`, no compound assignment.  It stops at
    the first token outside brackets that ends the expression.
   */
  predicate Clean(s: Scan, depth: nat, ts: seq<Token>)
    decreases |ts|
  {
    ts == [] ||
    (var k := ts[0].kind;
     var tail := ts[1..];
     if s == AtCallOpen && k == RPAREN then depth > 0 && Clean(AfterValue, depth - 1, tail)
     else if s == AtOperand || s == AtCallOpen then
       if k == LPAREN || k == PLUS then false
       else if k == IDENT then Clean(AfterName, depth, tail)
       else if IsPrefixOp(k) || k == AMPER || k == STAR || k == SIZEOF then Clean(AtOperand, depth, tail)
       else Clean(AfterValue, depth, tail)
     else if s == AfterDot then Clean(AfterValue, depth, tail)
     else if s == AfterName && k == LPAREN then Clean(AtCallOpen, depth + 1, tail)
     else if k == LPAREN || k == PLUSPLUS || k == MINUSMINUS || (IsAssignOp(k) && k != EQ) then false
     else if k == LBRACKET then Clean(AtOperand, depth + 1, tail)
     else if k == DOT || k == ARROW then Clean(AfterDot, depth, tail)
     else if k == EQ || 0 <= LevelOf(k) || (k == COMMA && depth > 0) then Clean(AtOperand, depth, tail)
     else if k == RPAREN || k == RBRACKET then depth == 0 || Clean(AfterValue, depth - 1, tail)
     else true)
  }

  /** A token without what the tree does not keep: spellings of symbols and numbers, and the character-literal kind. */
  function CanonToken(t: Token): Token {
    if t.kind == IDENT || t.kind == STRING || t.kind == INLINE_ASM then Token(t.kind, t.text, 0)
    else if t.kind == NUMBER || t.kind == CHAR_LIT then Token(NUMBER, "", t.intval)
    else Sym(t.kind)
  }

  function Canon(ts: seq<Token>): seq<Token> {
    if ts == [] then [] else [CanonToken(ts[0])] + Canon(ts[1..])
  }

  /** What a successful parse of the clean suffix `ts` at grammar level `level` has achieved. */
  predicate Faithful(level: int, depth: nat, ts: seq<Token>, r: Parsed<Expr>) {
    r.Ok? ==> Normal(r.value) && level <= Prec(r.value) && Canon(ts) == List(r.value, Canon(r.rest))
              && Clean(AfterValue, depth, r.rest)
  }

  lemma {:induction false} AssignmentFaithful(depth: nat, ts: seq<Token>)
    requires Clean(AtOperand, depth, ts)
    ensures Faithful(-1, depth, ts, ParseAssignment(ts))
    decreases |ts|, 16
  {
    LevelFaithful(0, depth, ts);
    var first := ParseLevel(0, ts);
    if first.Ok? && IsAssignOp(Peek(first.rest)) {
      AssignmentFaithful(depth, first.rest[1..]);
    }
  }

  lemma {:induction false} LevelFaithful(k: nat, depth: nat, ts: seq<Token>)
    requires k <= 10 && Clean(AtOperand, depth, ts)
    ensures Faithful(k, depth, ts, ParseLevel(k, ts))
    decreases |ts|, 15 - k
  {
    if k == 10 {
      UnaryFaithful(depth, ts);
    } else {
      LevelFaithful(k + 1, depth, ts);
      var first := ParseLevel(k + 1, ts);
      if first.Ok? { LevelTailFaithful(k, depth, first.value, first.rest); }
    }
  }

  lemma {:induction false} LevelTailFaithful(k: nat, depth: nat, node: Expr, ts: seq<Token>)
    requires k < 10 && Normal(node) && k <= Prec(node) && Clean(AfterValue, depth, ts)
    ensures var r := LevelTail(k, node, ts);
      r.Ok? ==> Normal(r.value) && k <= Prec(r.value) && List(node, Canon(ts)) == List(r.value, Canon(r.rest))
                && Clean(AfterValue, depth, r.rest)
    decreases |ts|, 0
  {
    var op := Peek(ts);
    if LevelOf(op) == k {
      LevelFaithful(k + 1, depth, ts[1..]);
      var right := ParseLevel(k + 1, ts[1..]);
      if right.Ok? {
        var bin := Binary(op, node, right.value);
        assert List(node, Canon(ts)) == List(bin, Canon(right.rest));
        LevelTailFaithful(k, depth, bin, right.rest);
      }
    }
  }

  lemma {:induction false} UnaryFaithful(depth: nat, ts: seq<Token>)
    requires Clean(AtOperand, depth, ts)
    ensures Faithful(11, depth, ts, ParseUnary(ts))
    ensures ParseCast(ts) == ParseUnary(ts)
    decreases |ts|, 3
  {
    var k := Peek(ts);
    if IsPrefixOp(k) || k == AMPER || k == STAR || k == SIZEOF {
      UnaryFaithful(depth, ts[1..]);
    } else {
      PostfixFaithful(depth, ts);
    }
  }

  function StateAfter(node: Expr): Scan { if node.Variable? then AfterName else AfterValue }

  lemma {:induction false} PostfixFaithful(depth: nat, ts: seq<Token>)
    requires Clean(AtOperand, depth, ts)
    ensures Faithful(12, depth, ts, ParsePostfix(ts))
    decreases |ts|, 2
  {
    var node := ParsePrimary(ts);
    if node.Ok? {
      assert Canon(ts) == List(node.value, Canon(node.rest));
      PostfixTailFaithful(depth, node.value, node.rest);
    }
  }

  /** A postfix step keeps the listing: what was listed of `node` and `ts` is listed of the longer tree. */
  predicate Extends(depth: nat, node: Expr, ts: seq<Token>, r: Parsed<Expr>) {
    r.Ok? ==> Normal(r.value) && Prec(r.value) == 12 && List(node, Canon(ts)) == List(r.value, Canon(r.rest))
              && Clean(AfterValue, depth, r.rest)
  }

  lemma {:induction false} PostfixTailFaithful(depth: nat, node: Expr, ts: seq<Token>)
    requires Normal(node) && Prec(node) == 12 && Clean(StateAfter(node), depth, ts)
    ensures Extends(depth, node, ts, PostfixTail(node, ts))
    decreases |ts|, 1
  {
    var k := Peek(ts);
    if k == LPAREN {
      CallFaithful(depth, node, ts);
    } else if k == LBRACKET {
      IndexFaithful(depth, node, ts);
    } else if k == DOT || k == ARROW {
      MemberFaithful(depth, node, ts);
    }
  }

  lemma {:induction false} IndexFaithful(depth: nat, node: Expr, ts: seq<Token>)
    requires Normal(node) && Prec(node) == 12 && Clean(StateAfter(node), depth, ts) && Peek(ts) == LBRACKET
    ensures Extends(depth, node, ts, PostfixTail(node, ts))
    decreases |ts|, 0
  {
    hide ParseAssignment; hide List; hide Canon;
    AssignmentFaithful(depth + 1, ts[1..]);
    var i := ParseExpression(ts[1..]);
    if i.Ok? && Peek(i.rest) == RBRACKET {
      IndexListed(node, ts, i.value, i.rest);
      PostfixTailFaithful(depth, Index(node, i.value), i.rest[1..]);
    }
  }

  lemma IndexListed(node: Expr, ts: seq<Token>, index: Expr, rest: seq<Token>)
    requires Peek(ts) == LBRACKET && Peek(rest) == RBRACKET && Canon(ts[1..]) == List(index, Canon(rest))
      && Prec(node) == 12
    ensures List(node, Canon(ts)) == List(Index(node, index), Canon(rest[1..]))
  {
  }

  lemma {:induction false} MemberFaithful(depth: nat, node: Expr, ts: seq<Token>)
    requires Normal(node) && Prec(node) == 12 && Clean(StateAfter(node), depth, ts)
    requires Peek(ts) == DOT || Peek(ts) == ARROW
    ensures Extends(depth, node, ts, PostfixTail(node, ts))
    decreases |ts|, 0
  {
    var ts' := ts[1..];
    if Peek(ts') == IDENT {
      var m := Member(if Peek(ts) == DOT then node else Deref(node), ts'[0].text);
      assert Canon(ts') == ConsName(ts'[0].text, Canon(ts'[1..]));
      assert List(node, Canon(ts)) == List(m, Canon(ts'[1..]));
      PostfixTailFaithful(depth, m, ts'[1..]);
    }
  }

  lemma {:induction false} CallFaithful(depth: nat, node: Expr, ts: seq<Token>)
    requires Normal(node) && Prec(node) == 12 && Clean(StateAfter(node), depth, ts) && Peek(ts) == LPAREN
    ensures Extends(depth, node, ts, PostfixTail(node, ts))
    decreases |ts|, 0
  {
    hide ParseAssignment; hide List; hide ArgsFrom; hide ListArgs;
    var ts' := ts[1..];
    if Peek(ts') == RPAREN {
      assert ts[2..] == ts'[1..];
      EmptyCallListed(node.name, ts);
      PostfixTailFaithful(depth, Call(node.name, []), ts'[1..]);
    } else {
      ArgsFaithful(depth + 1, [], ts');
      var args := ArgsFrom([], ts');
      if args.Ok? && Peek(args.rest) == RPAREN {
        CallListed(node.name, ts, args.value, args.rest);
        PostfixTailFaithful(depth, Call(node.name, args.value), args.rest[1..]);
      }
    }
  }

  lemma EmptyCallListed(f: string, ts: seq<Token>)
    requires Peek(ts) == LPAREN && Peek(ts[1..]) == RPAREN
    ensures List(Variable(f), Canon(ts)) == List(Call(f, []), Canon(ts[1..][1..]))
  {
  }

  lemma CallListed(f: string, ts: seq<Token>, args: seq<Expr>, rest: seq<Token>)
    requires Peek(ts) == LPAREN && Peek(rest) == RPAREN && Canon(ts[1..]) == ListArgs(args[0..], Canon(rest))
    ensures List(Variable(f), Canon(ts)) == List(Call(f, args), Canon(rest[1..]))
  {
    assert args[0..] == args;
  }

  lemma {:induction false} ArgsFaithful(depth: nat, before: seq<Expr>, ts: seq<Token>)
    requires depth > 0 && (forall a | a in before :: Normal(a)) && Clean(AtOperand, depth, ts)
    ensures var r := ArgsFrom(before, ts);
      r.Ok? ==> (forall a | a in r.value :: Normal(a)) && Clean(AfterValue, depth, r.rest)
                && |before| < |r.value| && r.value[..|before|] == before
                && Canon(ts) == ListArgs(r.value[|before|..], Canon(r.rest))
    decreases |ts|, 18
  {
    AssignmentFaithful(depth, ts);
    var e := ParseExpression(ts);
    if e.Ok? {
      var now := before + [e.value];
      if Peek(e.rest) == COMMA {
        ArgsFaithful(depth, now, e.rest[1..]);
        var r := ArgsFrom(now, e.rest[1..]);
        if r.Ok? {
          assert r.value[..|before|] == r.value[..|now|][..|before|];
          assert r.value[|before|..][0] == r.value[..|now|][|before|] == e.value;
          assert r.value[|before|..][1..] == r.value[|now|..];
        }
      } else {
        assert now[|before|..] == [e.value];
      }
    }
  }

  /**
    On a clean stream the parser returns a precedence-normal tree whose listing is the tokens
    it consumed.
   */
  lemma ListingInvertsParsing(ts: seq<Token>)
    requires Clean(AtOperand, 0, ts) && ParseExpression(ts).Ok?
    ensures Normal(ParseExpression(ts).value)
    ensures Canon(ts) == List(ParseExpression(ts).value, Canon(ParseExpression(ts).rest))
  {
    AssignmentFaithful(0, ts);
  }
}
