/**
  Tokens and syntax trees of the C front end.

  A token keeps the attributes the parser reads (kind, text, integer value); the line
  and column, used only in error messages, are left out.  The single tagged node type
  of the compiler becomes two datatypes, expressions and statements.
 */
module Ast {

  datatype Option<+T> = None | Some(value: T)

  /** The token kinds, numbered in the order the compiler declares them. */
  newtype TokenKind = k: int | 0 <= k < 77
  const END: TokenKind := 0
  const IDENT: TokenKind := 1
  const NUMBER: TokenKind := 2
  const STRING: TokenKind := 3
  const CHAR_LIT: TokenKind := 4
  const LPAREN: TokenKind := 5
  const RPAREN: TokenKind := 6
  const LBRACE: TokenKind := 7
  const RBRACE: TokenKind := 8
  const LBRACKET: TokenKind := 9
  const RBRACKET: TokenKind := 10
  const SEMICOLON: TokenKind := 11
  const COMMA: TokenKind := 12
  const DOT: TokenKind := 13
  const ARROW: TokenKind := 14
  const PLUS: TokenKind := 15
  const MINUS: TokenKind := 16
  const STAR: TokenKind := 17
  const SLASH: TokenKind := 18
  const PERCENT: TokenKind := 19
  const AMPER: TokenKind := 20
  const PIPE: TokenKind := 21
  const CARET: TokenKind := 22
  const TILDE: TokenKind := 23
  const EXCLAM: TokenKind := 24
  const EQ: TokenKind := 25
  const EQEQ: TokenKind := 26
  const NEQ: TokenKind := 27
  const LT: TokenKind := 28
  const LE: TokenKind := 29
  const GT: TokenKind := 30
  const GE: TokenKind := 31
  const ANDAND: TokenKind := 32
  const OROR: TokenKind := 33
  const PLUSPLUS: TokenKind := 34
  const MINUSMINUS: TokenKind := 35
  const PLUS_EQ: TokenKind := 36
  const MINUS_EQ: TokenKind := 37
  const STAR_EQ: TokenKind := 38
  const SLASH_EQ: TokenKind := 39
  const PERCENT_EQ: TokenKind := 40
  const AMPER_EQ: TokenKind := 41
  const PIPE_EQ: TokenKind := 42
  const CARET_EQ: TokenKind := 43
  const LSHIFT: TokenKind := 44
  const RSHIFT: TokenKind := 45
  const LSHIFT_EQ: TokenKind := 46
  const RSHIFT_EQ: TokenKind := 47
  const COLON: TokenKind := 48
  const QUESTION: TokenKind := 49
  const IF: TokenKind := 50
  const ELSE: TokenKind := 51
  const WHILE: TokenKind := 52
  const FOR: TokenKind := 53
  const DO: TokenKind := 54
  const SWITCH: TokenKind := 55
  const CASE: TokenKind := 56
  const DEFAULT: TokenKind := 57
  const BREAK: TokenKind := 58
  const CONTINUE: TokenKind := 59
  const RETURN: TokenKind := 60
  const GOTO: TokenKind := 61
  const INT_KW: TokenKind := 62
  const CHAR_KW: TokenKind := 63
  const SHORT_KW: TokenKind := 64
  const LONG_KW: TokenKind := 65
  const UNSIGNED: TokenKind := 66
  const SIGNED: TokenKind := 67
  const VOID_KW: TokenKind := 68
  const STATIC: TokenKind := 69
  const EXTERN: TokenKind := 70
  const CONST: TokenKind := 71
  const VOLATILE: TokenKind := 72
  const TYPEDEF: TokenKind := 73
  const STRUCT_KW: TokenKind := 74
  const SIZEOF: TokenKind := 75
  const INLINE_ASM: TokenKind := 76

  datatype Token = Token(kind: TokenKind, text: string, intval: nat)

  /** A token whose kind says it all. */
  function Sym(kind: TokenKind): Token { Token(kind, "", 0) }

  datatype DataType =
    | NONE | VOID | CHAR | UCHAR | SHORT | USHORT | INT | UINT | LONG | ULONG
    | PTR | ARRAY | STRUCT

  datatype CType = CType(base: DataType, isConst: bool, isVolatile: bool, pointerDepth: nat, arraySize: int)

  datatype Expr =
    | Variable(name: string)
    | Constant(value: nat)
    | StringLit(text: string)
    | Asm(code: string)
    | Binary(op: TokenKind, left: Expr, right: Expr)
    | Unary(uop: TokenKind, operand: Expr, isPrefix: bool)
    | AddressOf(operand: Expr)
    | Deref(operand: Expr)
    | SizeOf(operand: Expr)
    | Cast(target: CType, operand: Expr)
    | Call(callee: string, args: seq<Expr>)
    | Index(base: Expr, index: Expr)
    | Member(obj: Expr, member: string)
    | Assign(lhs: Expr, rhs: Expr)

  datatype Param = Param(name: string, ptype: CType)

  datatype Stmt =
    | Block(stmts: seq<Stmt>)
    | If(cond: Expr, thenBody: Stmt, elseBody: Option<Stmt>)
    | While(cond: Expr, body: Stmt)
    | For(init: Option<Expr>, forCond: Option<Expr>, inc: Option<Expr>, body: Stmt)
    | DoWhile(body: Stmt, cond: Expr)
    | Return(result: Option<Expr>)
    | Break
    | Continue
    | Empty
    | AsmStmt(code: string)
    | ExprStmt(expr: Expr)
    | VariableDecl(name: string, vtype: CType, initializer: Option<Expr>, isExtern: bool, isStatic: bool)
    | FunctionDef(name: string, returnType: CType, params: seq<Param>, funcBody: Option<Stmt>)

  /** The ten left-associative binary levels, loosest first; -1 for any other token. */
  function LevelOf(op: TokenKind): int {
    if op == OROR then 0
    else if op == ANDAND then 1
    else if op == PIPE then 2
    else if op == CARET then 3
    else if op == AMPER then 4
    else if op == EQEQ || op == NEQ then 5
    else if op == LT || op == GT || op == LE || op == GE then 6
    else if op == LSHIFT || op == RSHIFT then 7
    else if op == PLUS || op == MINUS then 8
    else if op == STAR || op == SLASH || op == PERCENT then 9
    else -1
  }
}
