/**
  Operator precedence and associativity, token by token: the operators of each level are
  written out, and chains of operands are read as the levels say, whatever table the parser
  keeps.
 */
module Precedence {
  import opened Ast
  import opened Grammar
  import opened Listing
  import opened ExpressionTheorems

  // ---- the operators ----

  /** The binary operators of ISO C11, sections 6.5.14 down to 6.5.5, loosest first. */
  const TIERS: seq<set<TokenKind>> := [
    {OROR}, {ANDAND}, {PIPE}, {CARET}, {AMPER}, {EQEQ, NEQ}, {LT, GT, LE, GE}, {LSHIFT, RSHIFT}, {PLUS, MINUS},
    {STAR, SLASH, PERCENT}]

  /** The tokens that go on with an operand. */
  const POSTFIX: set<TokenKind> := {LPAREN, LBRACKET, DOT, ARROW, PLUSPLUS, MINUSMINUS}

  const ASSIGNMENT: set<TokenKind> := {EQ, PLUS_EQ, MINUS_EQ, STAR_EQ}

  predicate IsBinary(k: TokenKind) { exists i :: 0 <= i < |TIERS| && k in TIERS[i] }

  /** The operators with these tiers, one by one. */
  predicate Tiered(ops: seq<TokenKind>, tiers: seq<nat>) {
    |tiers| == |ops| && forall k | 0 <= k < |ops| :: tiers[k] < |TIERS| && ops[k] in TIERS[tiers[k]]
  }

  lemma TierIsLevel(k: TokenKind, i: nat)
    requires i < |TIERS|
    ensures k in TIERS[i] <==> LevelOf(k) == i
  {
  }

  lemma NoTier(k: TokenKind)
    ensures !IsBinary(k) <==> LevelOf(k) < 0
  {
    if LevelOf(k) >= 0 { TierIsLevel(k, LevelOf(k)); }
    if IsBinary(k) {
      var i :| 0 <= i < |TIERS| && k in TIERS[i];
      TierIsLevel(k, i);
    }
  }

  /** A token that goes on with neither an operand nor a binary expression. */
  predicate EndsBinary(rest: seq<Token>) { !IsBinary(Peek(rest)) && Peek(rest) !in POSTFIX }

  predicate EndsExpression(rest: seq<Token>) { EndsBinary(rest) && Peek(rest) !in ASSIGNMENT }

  lemma EndsStop(rest: seq<Token>)
    ensures EndsBinary(rest) <==> Stops(0, rest)
    ensures EndsExpression(rest) <==> StopsExpression(rest)
  {
    NoTier(Peek(rest));
  }

  // ---- chains of operands ----

  function Name(x: string): Token { Token(IDENT, x, 0) }

  /** `a o1 b o2 c` and so on, and what follows. */
  function Chain(names: seq<string>, ops: seq<TokenKind>, rest: seq<Token>): seq<Token>
    requires |names| == |ops| + 1
    decreases |ops|
  {
    [Name(names[0])] + if ops == [] then rest else [Sym(ops[0])] + Chain(names[1..], ops[1..], rest)
  }

  /** The last of the loosest operators. */
  function LastLoosest(tiers: seq<nat>): (k: nat)
    requires tiers != []
    ensures k < |tiers|
    ensures forall j | 0 <= j < |tiers| :: tiers[k] <= tiers[j]
    ensures forall j | k < j < |tiers| :: tiers[k] < tiers[j]
    decreases |tiers|
  {
    var last := |tiers| - 1;
    if last == 0 then 0
    else
      var k := LastLoosest(tiers[..last]);
      if tiers[last] <= tiers[k] then last else k
  }

  /** A chain means what stands left and right of the last of its loosest operators, under that operator. */
  function Meaning(names: seq<string>, ops: seq<TokenKind>, tiers: seq<nat>): Expr
    requires |names| == |ops| + 1 == |tiers| + 1
    decreases |ops|
  {
    if ops == [] then Variable(names[0])
    else
      var k := LastLoosest(tiers);
      Binary(ops[k], Meaning(names[..k + 1], ops[..k], tiers[..k]),
             Meaning(names[k + 1..], ops[k + 1..], tiers[k + 1..]))
  }

  lemma {:induction false} ChainSplits(names: seq<string>, ops: seq<TokenKind>, k: nat, rest: seq<Token>)
    requires |names| == |ops| + 1 && k < |ops|
    ensures Chain(names, ops, rest) ==
      Chain(names[..k + 1], ops[..k], [Sym(ops[k])] + Chain(names[k + 1..], ops[k + 1..], rest))
    decreases k
  {
    if k > 0 {
      ChainSplits(names[1..], ops[1..], k - 1, rest);
      assert names[..k + 1][1..] == names[1..][..k] && ops[..k][1..] == ops[1..][..k - 1];
      assert names[k + 1..] == names[1..][k..] && ops[k + 1..] == ops[1..][k..];
    }
  }

  /** An operator between operands that bind tightly enough lists without brackets. */
  lemma BinaryLists(o: TokenKind, i: nat, l: Expr, r: Expr, rest: seq<Token>)
    requires i < |TIERS| && o in TIERS[i] && Printable(l) && Printable(r) && i <= Prec(l) && i < Prec(r)
    ensures var e := Binary(o, l, r);
      Printable(e) && Prec(e) == i && List(e, rest) == List(l, [Sym(o)] + List(r, rest))
  {
    TierIsLevel(o, i);
    assert List(Binary(o, l, r), rest) == ListAt(LevelOf(o), l, Cons(o, ListAt(LevelOf(o) + 1, r, rest)));
  }

  /** The tree of a chain lists without brackets. */
  lemma {:induction false} MeaningLists(names: seq<string>, ops: seq<TokenKind>, tiers: seq<nat>, rest: seq<Token>)
    requires |names| == |ops| + 1 && Tiered(ops, tiers)
    ensures var e := Meaning(names, ops, tiers);
      Printable(e) && List(e, rest) == Chain(names, ops, rest)
      && Prec(e) == if ops == [] then 12 else tiers[LastLoosest(tiers)]
    decreases |ops|
  {
    hide List; hide Printable; hide Prec; hide Chain; hide LastLoosest;
    if ops != [] {
      var k := LastLoosest(tiers);
      var left := Meaning(names[..k + 1], ops[..k], tiers[..k]);
      var right := Meaning(names[k + 1..], ops[k + 1..], tiers[k + 1..]);
      var after := Chain(names[k + 1..], ops[k + 1..], rest);
      MeaningLists(names[..k + 1], ops[..k], tiers[..k], [Sym(ops[k])] + after);
      MeaningLists(names[k + 1..], ops[k + 1..], tiers[k + 1..], rest);
      BinaryLists(ops[k], tiers[k], left, right, rest);
      ChainSplits(names, ops, k, rest);
    } else {
      OneName(names, rest);
    }
  }

  lemma OneName(names: seq<string>, rest: seq<Token>)
    requires |names| == 1
    ensures var e := Variable(names[0]); Printable(e) && List(e, rest) == Chain(names, [], rest) && Prec(e) == 12
  {
  }

  /**
    Any chain of operands and binary operators is read as its tiers say, up to the first token
    that is no binary operator.
   */
  lemma ChainParses(names: seq<string>, ops: seq<TokenKind>, tiers: seq<nat>, rest: seq<Token>)
    requires |names| == |ops| + 1 && Tiered(ops, tiers)
    ensures EndsBinary(rest) ==> ParseLevel(0, Chain(names, ops, rest)) == Ok(Meaning(names, ops, tiers), rest)
    ensures EndsExpression(rest) ==> ParseExpression(Chain(names, ops, rest)) == Ok(Meaning(names, ops, tiers), rest)
  {
    hide ParseLevel; hide ParseExpression; hide List; hide Chain; hide Meaning; hide LastLoosest;
    MeaningLists(names, ops, tiers, rest);
    MeaningIsOperand(names, ops, tiers, rest);
    EndsStop(rest);
    if EndsBinary(rest) { OperandListing(0, Meaning(names, ops, tiers), rest); }
    if EndsExpression(rest) { ExpressionListing(Meaning(names, ops, tiers), rest); }
  }

  lemma MeaningIsOperand(names: seq<string>, ops: seq<TokenKind>, tiers: seq<nat>, rest: seq<Token>)
    requires |names| == |ops| + 1 && Tiered(ops, tiers)
    ensures ListAt(0, Meaning(names, ops, tiers), rest) == List(Meaning(names, ops, tiers), rest)
  {
    hide List;
    MeaningLists(names, ops, tiers, rest);
  }

  /** Of two operators the tighter one takes the operand between them; of one tier, the first. */
  lemma TwoOperators(a: string, o1: TokenKind, b: string, o2: TokenKind, c: string, i: nat, j: nat, rest: seq<Token>)
    requires i < |TIERS| && o1 in TIERS[i] && j < |TIERS| && o2 in TIERS[j] && EndsExpression(rest)
    ensures ParseExpression([Name(a), Sym(o1), Name(b), Sym(o2), Name(c)] + rest) ==
      Ok(if i < j then Binary(o1, Variable(a), Binary(o2, Variable(b), Variable(c)))
         else Binary(o2, Binary(o1, Variable(a), Variable(b)), Variable(c)), rest)
  {
    hide ParseExpression;
    var names, ops, tiers := [a, b, c], [o1, o2], [i, j];
    assert ops[..0] == [] && ops[1..] == [o2] && ops[..1] == [o1] && ops[2..] == [];
    assert names[1..] == [b, c] && names[..2] == [a, b] && names[2..] == [c] && names[..1] == [a];
    assert tiers[..1] == [i] && tiers[1..] == [j] && [j][..0] == [] && [j][1..] == [];
    assert LastLoosest([i]) == 0 && LastLoosest([j]) == 0;
    ChainParses(names, ops, tiers, rest);
    ShortChain(a, o1, b, o2, c, rest);
    ShortMeaning(a, b, o1, i);
    ShortMeaning(b, c, o2, j);
  }

  lemma ShortMeaning(a: string, b: string, o: TokenKind, i: nat)
    ensures Meaning([a, b], [o], [i]) == Binary(o, Variable(a), Variable(b))
  {
    assert [a, b][..1] == [a] && [a, b][1..] == [b];
  }

  lemma ShortChain(a: string, o1: TokenKind, b: string, o2: TokenKind, c: string, rest: seq<Token>)
    ensures Chain([a, b, c], [o1, o2], rest) == [Name(a), Sym(o1), Name(b), Sym(o2), Name(c)] + rest
  {
    assert [a, b, c][1..] == [b, c] && [b, c][1..] == [c] && [o1, o2][1..] == [o2] && [o2][1..] == [];
    var t2 := Chain([b, c], [o2], rest);
    assert Chain([c], [], rest) == [Name(c)] + rest;
    assert t2 == [Name(b)] + ([Sym(o2)] + ([Name(c)] + rest));
    assert Chain([a, b, c], [o1, o2], rest) == [Name(a)] + ([Sym(o1)] + t2);
  }

  // ---- prefix, postfix and assignment operators ----

  /** What a prefix operator makes of its operand; `+` makes nothing of it. */
  function Prefixed(op: TokenKind, x: Expr): Option<Expr> {
    if op in {PLUSPLUS, MINUSMINUS, MINUS, TILDE, EXCLAM} then Some(Unary(op, x, true))
    else if op == AMPER then Some(AddressOf(x))
    else if op == STAR then Some(Deref(x))
    else if op == SIZEOF then Some(SizeOf(x))
    else if op == PLUS then Some(x)
    else None
  }

  /** Prefix operators wrap what the unary level reads behind them, whatever that is. */
  lemma PrefixWraps(op: TokenKind, ts: seq<Token>)
    requires Prefixed(op, Variable("")).Some?
    ensures var r, x := ParseUnary([Sym(op)] + ts), ParseUnary(ts);
      if x.Ok? then r == Ok(Prefixed(op, x.value).value, x.rest) else r == Fail(x.error)
  {
    assert ([Sym(op)] + ts)[1..] == ts;
  }

  /** No other token is one. */
  lemma OthersAreNoPrefix(ts: seq<Token>)
    requires Prefixed(Peek(ts), Variable("")).None?
    ensures ParseUnary(ts) == ParsePostfix(ts)
  {
  }

  lemma LevelsEndHere(k: nat, ts: seq<Token>, e: Expr, rest: seq<Token>)
    requires k <= 10 && ParseCast(ts) == Ok(e, rest) && EndsBinary(rest)
    ensures ParseLevel(k, ts) == Ok(e, rest)
    decreases 10 - k
  {
    NoTier(Peek(rest));
    if k < 10 { LevelsEndHere(k + 1, ts, e, rest); }
  }

  /** `op a [ b ]`, `op f ( b )`, `op a . b`, `op a -> b`: a postfix operator binds more tightly than a prefix one. */
  lemma PostfixBeforePrefix(op: TokenKind, a: string, b: string, rest: seq<Token>)
    requires Prefixed(op, Variable(a)).Some? && Peek(rest) !in POSTFIX
    ensures ParseUnary([Sym(op)] + ([Name(a), Sym(LBRACKET), Name(b), Sym(RBRACKET)] + rest))
      == Ok(Prefixed(op, Index(Variable(a), Variable(b))).value, rest)
    ensures ParseUnary([Sym(op)] + ([Name(a), Sym(LPAREN), Name(b), Sym(RPAREN)] + rest))
      == Ok(Prefixed(op, Call(a, [Variable(b)])).value, rest)
    ensures ParseUnary([Sym(op)] + ([Name(a), Sym(DOT), Name(b)] + rest))
      == Ok(Prefixed(op, Member(Variable(a), b)).value, rest)
    ensures ParseUnary([Sym(op)] + ([Name(a), Sym(ARROW), Name(b)] + rest))
      == Ok(Prefixed(op, Member(Deref(Variable(a)), b)).value, rest)
  {
    hide ParseUnary;
    PrefixWraps(op, [Name(a), Sym(LBRACKET), Name(b), Sym(RBRACKET)] + rest);
    PrefixWraps(op, [Name(a), Sym(LPAREN), Name(b), Sym(RPAREN)] + rest);
    PrefixWraps(op, [Name(a), Sym(DOT), Name(b)] + rest);
    PrefixWraps(op, [Name(a), Sym(ARROW), Name(b)] + rest);
    IndexReads(a, b, rest);
    CallReads(a, b, rest);
    MembersRead(a, b, rest);
  }

  lemma NameReads(x: string, rest: seq<Token>)
    requires EndsExpression(rest)
    ensures ParseExpression([Name(x)] + rest) == Ok(Variable(x), rest)
  {
    hide ParseExpression;
    EndsStop(rest);
    ExpressionListing(Variable(x), rest);
  }

  lemma NameThen(x: string, ts: seq<Token>)
    ensures ParseUnary([Name(x)] + ts) == PostfixTail(Variable(x), ts)
  {
    hide ParseExpression; hide PostfixTail;
    OthersAreNoPrefix([Name(x)] + ts);
    assert ([Name(x)] + ts)[1..] == ts;
  }

  lemma IndexReads(a: string, b: string, rest: seq<Token>)
    requires Peek(rest) !in POSTFIX
    ensures ParseUnary([Name(a), Sym(LBRACKET), Name(b), Sym(RBRACKET)] + rest)
      == Ok(Index(Variable(a), Variable(b)), rest)
  {
    hide ParseExpression; hide PostfixTail; hide ParseUnary;
    var end := [Sym(RBRACKET)] + rest;
    var ts := [Sym(LBRACKET)] + ([Name(b)] + end);
    assert [Name(a), Sym(LBRACKET), Name(b), Sym(RBRACKET)] + rest == [Name(a)] + ts;
    NameReads(b, end);
    IndexExtends(Variable(a), Variable(b), [Name(b)] + end, rest);
    NameThen(a, ts);
    NoPostfix(Index(Variable(a), Variable(b)), rest);
  }

  lemma CallReads(a: string, b: string, rest: seq<Token>)
    requires Peek(rest) !in POSTFIX
    ensures ParseUnary([Name(a), Sym(LPAREN), Name(b), Sym(RPAREN)] + rest) == Ok(Call(a, [Variable(b)]), rest)
  {
    hide ParseExpression; hide ParseUnary;
    var end := [Sym(RPAREN)] + rest;
    var more := [Name(b)] + end;
    assert [Name(a), Sym(LPAREN), Name(b), Sym(RPAREN)] + rest == [Name(a)] + ([Sym(LPAREN)] + more);
    NameThen(a, [Sym(LPAREN)] + more);
    OneArgument(b, end);
    assert ([Sym(LPAREN)] + more)[1..] == more && end[1..] == rest;
    NoPostfix(Call(a, [Variable(b)]), rest);
  }

  lemma OneArgument(b: string, end: seq<Token>)
    requires Peek(end) == RPAREN
    ensures ArgsFrom([], [Name(b)] + end) == Ok([Variable(b)], end)
  {
    hide ParseExpression;
    NameReads(b, end);
    assert [] + [Variable(b)] == [Variable(b)];
  }

  lemma MembersRead(a: string, b: string, rest: seq<Token>)
    requires Peek(rest) !in POSTFIX
    ensures ParseUnary([Name(a), Sym(DOT), Name(b)] + rest) == Ok(Member(Variable(a), b), rest)
    ensures ParseUnary([Name(a), Sym(ARROW), Name(b)] + rest) == Ok(Member(Deref(Variable(a)), b), rest)
  {
    hide ParseExpression; hide PostfixTail; hide ParseUnary;
    var dot, arrow := [Sym(DOT)] + ([Name(b)] + rest), [Sym(ARROW)] + ([Name(b)] + rest);
    assert [Name(a), Sym(DOT), Name(b)] + rest == [Name(a)] + dot;
    assert [Name(a), Sym(ARROW), Name(b)] + rest == [Name(a)] + arrow;
    MemberExtends(Variable(a), b, rest);
    NameThen(a, dot);
    NameThen(a, arrow);
    NoPostfix(Member(Variable(a), b), rest);
    NoPostfix(Member(Deref(Variable(a)), b), rest);
  }

  /** `op a o b`: a prefix operator binds more tightly than any binary one. */
  lemma PrefixBeforeBinary(op: TokenKind, a: string, o: TokenKind, b: string, i: nat, rest: seq<Token>)
    requires Prefixed(op, Variable(a)).Some? && i < |TIERS| && o in TIERS[i] && EndsBinary(rest)
    ensures ParseLevel(0, [Sym(op)] + ([Name(a)] + ([Sym(o)] + ([Name(b)] + rest)))) ==
      Ok(Binary(o, Prefixed(op, Variable(a)).value, Variable(b)), rest)
  {
    hide ParseUnary; hide LevelTail; hide ParseLevel;
    var after := [Sym(o)] + ([Name(b)] + rest);
    var ts := [Sym(op)] + ([Name(a)] + after);
    TierIsLevel(o, i);
    NameIsUnary(a, after);
    PrefixWraps(op, [Name(a)] + after);
    assert ParseCast(ts) == ParseUnary(ts);
    var e := Prefixed(op, Variable(a)).value;
    TighterEnd(i + 1, ts, e, after);
    NameIsUnary(b, rest);
    LevelsEndHere(i + 1, [Name(b)] + rest, Variable(b), rest);
    OneOperator(i, ts, e, o, [Name(b)] + rest, Variable(b), rest);
    LooserEnd(0, i, ts, Binary(o, e, Variable(b)), rest);
  }

  lemma NameIsUnary(x: string, rest: seq<Token>)
    requires Peek(rest) !in POSTFIX
    ensures ParseUnary([Name(x)] + rest) == Ok(Variable(x), rest) == ParseCast([Name(x)] + rest)
  {
    hide ParseExpression;
    var ts := [Name(x)] + rest;
    assert ts[1..] == rest;
    OthersAreNoPrefix(ts);
    NoPostfix(Variable(x), rest);
  }

  lemma NoPostfix(node: Expr, rest: seq<Token>)
    requires Peek(rest) !in POSTFIX
    ensures PostfixTail(node, rest) == Ok(node, rest)
  {
  }

  /** No level tighter than `k` takes an operator of a looser tier. */
  lemma {:induction false} TighterEnd(k: nat, ts: seq<Token>, e: Expr, rest: seq<Token>)
    requires k <= 10 && ParseCast(ts) == Ok(e, rest) && LevelOf(Peek(rest)) < k
    ensures ParseLevel(k, ts) == Ok(e, rest)
    decreases 10 - k
  {
    if k < 10 { TighterEnd(k + 1, ts, e, rest); }
  }

  lemma OneOperator(i: nat, ts: seq<Token>, l: Expr, o: TokenKind, more: seq<Token>, r: Expr, rest: seq<Token>)
    requires i < 10 && ParseLevel(i + 1, ts) == Ok(l, [Sym(o)] + more) && LevelOf(o) == i
    requires ParseLevel(i + 1, more) == Ok(r, rest) && EndsBinary(rest)
    ensures ParseLevel(i, ts) == Ok(Binary(o, l, r), rest)
  {
    NoTier(Peek(rest));
    assert ([Sym(o)] + more)[1..] == more;
    assert LevelTail(i, Binary(o, l, r), rest) == Ok(Binary(o, l, r), rest);
  }

  lemma {:induction false} LooserEnd(k: nat, i: nat, ts: seq<Token>, e: Expr, rest: seq<Token>)
    requires k <= i <= 10 && ParseLevel(i, ts) == Ok(e, rest) && EndsBinary(rest)
    ensures ParseLevel(k, ts) == Ok(e, rest)
    decreases i - k
  {
    NoTier(Peek(rest));
    if k < i { LooserEnd(k + 1, i, ts, e, rest); }
  }

  /** Assignment takes one of its operators behind any binary expression, and nests to the right. */
  lemma AssignmentNests(ts: seq<Token>, l: Expr, op: TokenKind, more: seq<Token>)
    requires ParseLevel(0, ts) == Ok(l, [Sym(op)] + more)
    ensures op !in ASSIGNMENT ==> ParseExpression(ts) == Ok(l, [Sym(op)] + more)
    ensures op in ASSIGNMENT ==>
      var r := ParseExpression(more);
      ParseExpression(ts) == if r.Ok? then Ok(Assign(l, r.value), r.rest) else Fail(r.error)
  {
    hide ParseLevel;
    assert ([Sym(op)] + more)[1..] == more;
  }

  /** So of two assignments the right one is done first, and binary operators bind more tightly. */
  lemma TwoAssignments(a: string, o1: TokenKind, b: string, o2: TokenKind, c: string, rest: seq<Token>)
    requires o1 in ASSIGNMENT && o2 in ASSIGNMENT && EndsExpression(rest)
    ensures ParseExpression([Name(a)] + ([Sym(o1)] + ([Name(b)] + ([Sym(o2)] + ([Name(c)] + rest))))) ==
      Ok(Assign(Variable(a), Assign(Variable(b), Variable(c))), rest)
  {
    hide ParseExpression; hide ParseLevel;
    var third := [Name(c)] + rest;
    var second := [Name(b)] + ([Sym(o2)] + third);
    NameReads(c, rest);
    NameEnds(b, [Sym(o2)] + third);
    AssignmentNests(second, Variable(b), o2, third);
    NameEnds(a, [Sym(o1)] + second);
    AssignmentNests([Name(a)] + ([Sym(o1)] + second), Variable(a), o1, second);
  }

  lemma NameEnds(x: string, rest: seq<Token>)
    requires EndsBinary(rest)
    ensures ParseLevel(0, [Name(x)] + rest) == Ok(Variable(x), rest)
  {
    hide ParseLevel;
    NameIsUnary(x, rest);
    LevelsEndHere(0, [Name(x)] + rest, Variable(x), rest);
  }
}
