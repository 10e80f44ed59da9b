/**
  Generated code on 64-bit words whose arithmetic is that of the CPU's instructions: what each
  operator of the language computes, in integers and bits, and where an element lies.
 */
module CodeWords {
  import opened Ast
  import opened Words
  import opened CodeGen
  import opened CodeSemantics
  import opened CodeTheorems
  import opened CodeMemory
  import opened CodeValues
  import opened CpuArithmetic
  import Cpu

  /** The instruction behind each mnemonic of the generator. */
  function InstructionOf(op: AluOp): Cpu.AluOp {
    match op
    case ADD => Cpu.Add
    case SUB => Cpu.Sub
    case MUL => Cpu.Mul
    case DIV => Cpu.Div
    case REM => Cpu.Rem
    case AND => Cpu.And
    case OR => Cpu.Or
    case XOR => Cpu.Xor
    case SLL => Cpu.Shl
    case SRL => Cpu.Shr
  }

  /** An architecture whose words and arithmetic are the CPU's. */
  ghost predicate OnHvm<S>(arch: Arch<u64, S>) {
    && (forall v: nat :: arch.constant(v) == v % TWO64)
    && (forall op, a, b :: arch.alu(op, a, b) == Cpu.AluResult(InstructionOf(op), a, b, 0))
  }

  /** The value of `l op r`, as the language has it. */
  function Operated<S>(arch: Arch<u64, S>, op: TokenKind, l: Expr, r: Expr, st: S): u64
    requires Term(l) && Term(r)
  {
    Meaning(arch, Binary(op, l, r), st)
  }

  lemma OperatedBy<S>(arch: Arch<u64, S>, op: TokenKind, alu: AluOp, l: Expr, r: Expr, st: S)
    requires OnHvm(arch) && Term(l) && Term(r) && AluOf(op) == Some(alu)
    ensures var a: u64, b: u64 := Meaning(arch, l, st), Meaning(arch, r, st);
      Operated(arch, op, l, r, st) == Cpu.AluResult(InstructionOf(alu), a, b, 0)
  {
    hide Cpu.AluResult;
  }

  /** Sums, differences and products of any integers, modulo 2^64. */
  lemma SumsMean<S>(arch: Arch<u64, S>, l: Expr, r: Expr, st: S, x: int, y: int)
    requires OnHvm(arch) && Term(l) && Term(r)
    requires Meaning(arch, l, st) == x % TWO64 && Meaning(arch, r, st) == y % TWO64
    ensures Operated(arch, PLUS, l, r, st) == (x + y) % TWO64
    ensures Operated(arch, MINUS, l, r, st) == (x - y) % TWO64
    ensures Operated(arch, STAR, l, r, st) == (x * y) % TWO64
  {
    hide Cpu.AluResult; hide Operated; hide OnHvm; hide Meaning;
    OperatedBy(arch, PLUS, ADD, l, r, st);
    OperatedBy(arch, MINUS, SUB, l, r, st);
    OperatedBy(arch, STAR, MUL, l, r, st);
    hide AluOf;
    Summed(Cpu.Add, x % TWO64, y % TWO64, 0);
    Summed(Cpu.Sub, x % TWO64, y % TWO64, 0);
    Summed(Cpu.Mul, x % TWO64, y % TWO64, 0);
    ModOfSum(x, y, TWO64);
    ModOfDifference(x, y, TWO64);
    ModOfProduct(x, y, TWO64);
  }

  /** Quotients and remainders of signed integers, rounded toward zero. */
  lemma QuotientsMean<S>(arch: Arch<u64, S>, l: Expr, r: Expr, st: S, x: int, y: int) returns (q: int, m: int)
    requires OnHvm(arch) && Term(l) && Term(r) && InRange(x) && InRange(y) && y != 0
    requires Meaning(arch, l, st) == x % TWO64 && Meaning(arch, r, st) == y % TWO64
    ensures Divides(x, y, q, m)
    ensures Operated(arch, SLASH, l, r, st) == q % TWO64 && Operated(arch, PERCENT, l, r, st) == m % TWO64
  {
    hide Cpu.AluResult; hide Cpu.Signed; hide Cpu.Truncated; hide Divides; hide Operated; hide OnHvm; hide Meaning;
    OperatedBy(arch, SLASH, DIV, l, r, st);
    OperatedBy(arch, PERCENT, REM, l, r, st);
    hide AluOf;
    Divided(Cpu.Div, x % TWO64, y % TWO64, 0);
    Divided(Cpu.Rem, x % TWO64, y % TWO64, 0);
    SignedOf(x);
    SignedOf(y);
    TruncatedDivides(x, y);
    q, m := Cpu.Truncated(x, y), x - y * Cpu.Truncated(x, y);
  }

  lemma BitMeans<S>(arch: Arch<u64, S>, op: TokenKind, alu: AluOp, l: Expr, r: Expr, st: S, k: nat)
    requires OnHvm(arch) && Term(l) && Term(r) && k < 64 && AluOf(op) == Some(alu) && alu in {AND, OR, XOR}
    ensures Bit(Operated(arch, op, l, r, st), k) ==
      OneBit(InstructionOf(alu), Bit(Meaning(arch, l, st), k), Bit(Meaning(arch, r, st), k))
  {
    hide Cpu.AluResult; hide Bit; hide Cpu.Bitwise; hide Operated; hide OnHvm; hide Meaning; hide AluOf;
    var a: u64, b: u64 := Meaning(arch, l, st), Meaning(arch, r, st);
    OperatedBy(arch, op, alu, l, r, st);
    BitResults(InstructionOf(alu), a, b, 0);
    WordBits(InstructionOf(alu), a, b);
  }

  /** Bitwise operators work on each bit by itself. */
  lemma BitsMean<S>(arch: Arch<u64, S>, l: Expr, r: Expr, st: S, k: nat)
    requires OnHvm(arch) && Term(l) && Term(r) && k < 64
    ensures var a, b := Bit(Meaning(arch, l, st), k), Bit(Meaning(arch, r, st), k);
      Bit(Operated(arch, AMPER, l, r, st), k) == (a && b) && Bit(Operated(arch, PIPE, l, r, st), k) == (a || b)
      && Bit(Operated(arch, CARET, l, r, st), k) == (a != b)
  {
    hide Bit; hide Operated; hide OnHvm; hide Meaning;
    BitMeans(arch, AMPER, AND, l, r, st, k);
    BitMeans(arch, PIPE, OR, l, r, st, k);
    BitMeans(arch, CARET, XOR, l, r, st, k);
  }

  /** Shifts take the low six bits of the count and scale by a power of two. */
  lemma ShiftsMean<S>(arch: Arch<u64, S>, l: Expr, r: Expr, st: S)
    requires OnHvm(arch) && Term(l) && Term(r)
    ensures var a, n := Meaning(arch, l, st), Meaning(arch, r, st) % 64;
      Operated(arch, LSHIFT, l, r, st) == (a * Exp2(n)) % TWO64
      && Operated(arch, RSHIFT, l, r, st) == (a / Exp2(n)) % TWO64
  {
    var a, b := Meaning(arch, l, st), Meaning(arch, r, st);
    hide Cpu.AluResult; hide Exp2; hide Operated; hide OnHvm; hide Meaning;
    OperatedBy(arch, LSHIFT, SLL, l, r, st);
    OperatedBy(arch, RSHIFT, SRL, l, r, st);
    hide AluOf;
    Shifted(Cpu.Shl, a, b, 0);
    Shifted(Cpu.Shr, a, b, 0);
  }

  /** An element lies eight times the index behind the base. */
  lemma ElementsMean<S>(arch: Arch<u64, S>, a: Expr, i: Expr, st: S, x: int, y: int)
    requires OnHvm(arch) && Term(a) && Term(i)
    requires Meaning(arch, a, st) == x % TWO64 && Meaning(arch, i, st) == y % TWO64
    ensures Meaning(arch, Index(a, i), st) == arch.read(st, (x + 8 * y) % TWO64)
  {
    var offset := ScaledIndex(arch, y);
    MeaningOfIndex(arch, a, i, st);
    hide Meaning;
    BasePlus(arch, x, 8 * y);
    hide OnHvm;
  }

  lemma MeaningOfIndex<S>(arch: Arch<u64, S>, a: Expr, i: Expr, st: S)
    requires Term(a) && Term(i)
    ensures Meaning(arch, Index(a, i), st) ==
      arch.read(st, arch.alu(ADD, Meaning(arch, a, st), arch.alu(SLL, Meaning(arch, i, st), arch.constant(3))))
  {
  }

  lemma BasePlus<S>(arch: Arch<u64, S>, x: int, y: int)
    requires OnHvm(arch)
    ensures arch.alu(ADD, x % TWO64, y % TWO64) == (x + y) % TWO64
  {
    hide Cpu.AluResult;
    assert arch.alu(ADD, x % TWO64, y % TWO64) == Cpu.AluResult(Cpu.Add, x % TWO64, y % TWO64, 0);
    hide OnHvm;
    Summed(Cpu.Add, x % TWO64, y % TWO64, 0);
    ModOfSum(x, y, TWO64);
  }

  lemma ScaledIndex<S>(arch: Arch<u64, S>, y: int) returns (offset: u64)
    requires OnHvm(arch)
    ensures offset == (8 * y) % TWO64 && arch.alu(SLL, y % TWO64, arch.constant(3)) == offset
  {
    hide Cpu.AluResult;
    offset := (8 * y) % TWO64;
    assert arch.constant(3) == 3;
    assert arch.alu(SLL, y % TWO64, 3) == Cpu.AluResult(Cpu.Shl, y % TWO64, 3, 0);
    hide OnHvm;
    Shifted(Cpu.Shl, y % TWO64, 3, 0);
    assert Exp2(3) == 8;
    WrappedProduct(y, 8);
  }

  /**
    The code of `a[i]`, for constants, variables, addresses and dereferences of these, anywhere in
    a program: it ends with the doubleword at the base plus eight times the index in the target.
   */
  lemma IndexLoadsElement<S>(arch: Arch<u64, S>, code: seq<Line>, at: nat, a: Expr, i: Expr, target: Reg, c: nat,
                             m: Machine<u64, S>)
    requires OnHvm(arch) && Term(a) && Term(i) && Computed(a) && Computed(i) && Direct(i)
    requires At(code, at, GenExpression(Index(a, i), target, c).lines) && 2 < |m.regs| && target < |m.regs|
    ensures Delivers(arch, code, at, Index(a, i), target, c, m)
    ensures var base: u64, index: u64 := Meaning(arch, a, m.store), Meaning(arch, i, m.store);
      Meaning(arch, Index(a, i), m.store) == arch.read(m.store, (base + 8 * index) % TWO64)
  {
    assert Computed(Index(a, i));
    hide At; hide Delivers; hide Meaning; hide OnHvm; hide Computed; hide GenExpression;
    ComputedDelivers(arch, code, at, Index(a, i), target, c, m);
    var x: u64, y: u64 := Meaning(arch, a, m.store), Meaning(arch, i, m.store);
    DivMod(x, TWO64, 0, x);
    DivMod(y, TWO64, 0, y);
    ElementsMean(arch, a, i, m.store, x, y);
  }
}
