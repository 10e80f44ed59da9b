/**
  What the first token of a statement decides, the tokens written out: which start a
  declaration, which an expression, and which no statement at all.
 */
module StatementStarts {
  import opened Ast
  import opened Grammar

  const DECLARATION := {INT_KW, CHAR_KW, SHORT_KW, LONG_KW, VOID_KW, UNSIGNED, SIGNED, STATIC, EXTERN, STRUCT_KW, CONST}

  const KEYWORD := {LBRACE, IF, WHILE, FOR, DO, RETURN, BREAK, CONTINUE, SEMICOLON, INLINE_ASM}

  const EXPRESSION := {IDENT, NUMBER, CHAR_LIT, STRING, INLINE_ASM, LPAREN, PLUSPLUS, MINUSMINUS, PLUS, MINUS, TILDE,
    EXCLAM, AMPER, STAR, SIZEOF}

  /** These start a declaration; among the other tokens, those that are no keyword start an expression. */
  lemma StatementsAreOf(ts: seq<Token>)
    ensures Peek(ts) in DECLARATION ==> ParseStatement(ts) == ParseDeclaration(ts)
    ensures Peek(ts) !in DECLARATION + KEYWORD && ParseStatement(ts).Ok? ==>
      ParseStatement(ts).value.ExprStmt? && ParseExpression(ts).Ok?
      && ParseExpression(ts).value == ParseStatement(ts).value.expr
  {
    hide ParseDeclaration; hide ParseExpression; hide ParseBlock; hide ParseIf; hide ParseWhile; hide ParseFor;
    hide ParseDoWhile; hide ParseReturn;
  }

  /** No expression starts with another token, at any level. */
  lemma {:induction false} NoExpression(k: nat, ts: seq<Token>)
    requires k <= 10 && Peek(ts) !in EXPRESSION
    ensures ParseLevel(k, ts).Fail?
    decreases 10 - k
  {
    hide LevelTail; hide PostfixTail;
    if k < 10 {
      NoExpression(k + 1, ts);
    } else {
      assert ParseUnary(ts) == ParsePostfix(ts);
      assert ParsePrimary(ts).Fail?;
    }
  }

  /** So nothing that starts otherwise is a statement: not `switch`, `goto`, `typedef` or `volatile`. */
  lemma NoStatement(ts: seq<Token>)
    requires Peek(ts) !in DECLARATION + KEYWORD + EXPRESSION
    ensures ParseStatement(ts).Fail? && ParseExpression(ts).Fail?
  {
    hide ParseStatement;
    NoAssignment(ts);
    StatementsAreOf(ts);
  }

  lemma NoAssignment(ts: seq<Token>)
    requires Peek(ts) !in EXPRESSION
    ensures ParseExpression(ts).Fail?
  {
    hide ParseLevel;
    NoExpression(0, ts);
  }

  /** The size of an array is the number in its brackets, as a 32-bit signed integer. */
  lemma ArraySizeNarrows(t: CType, n: Token, rest: seq<Token>)
    requires n.kind == NUMBER
    ensures var r := ParseArraySuffix(t, [Sym(LBRACKET)] + ([n] + ([Sym(RBRACKET)] + rest)));
      r.Ok? && r.rest == rest && r.value == t.(arraySize := r.value.arraySize)
      && -0x8000_0000 <= r.value.arraySize < 0x8000_0000 && (n.intval - r.value.arraySize) % 0x1_0000_0000 == 0
  {
    var ts := [Sym(LBRACKET)] + ([n] + ([Sym(RBRACKET)] + rest));
    assert ts[1..] == [n] + ([Sym(RBRACKET)] + rest) && ts[2..] == [Sym(RBRACKET)] + rest && ts[1] == n;
    assert ts[2..][1..] == rest;
  }
}
