/**
  What the arithmetic instructions compute, in terms of integers, quotients, powers of two and
  bits: nothing here is stated through the functions that define an instruction's result.
 */
module CpuArithmetic {
  import opened Words
  import opened Cpu

  /** Register `r` reads as `v`; register 0 reads as 0. */
  predicate Has(s: State, r: Reg, v: u64) { v == if r == 0 then 0 else s.regs[r] }

  /** The whole effect of an instruction that writes `v` to its register and runs on. */
  predicate Writes(s: State, di: Inst, v: u64) {
    Exec(s, di) == Ran(s.(regs := if di.rd == 0 then s.regs else s.regs[di.rd := v],
                          pc := (s.pc + if di.isEscape then 8 else 4) % TWO64))
  }

  /** The integers a register holds in two's complement. */
  predicate InRange(x: int) { -0x8000_0000_0000_0000 <= x < 0x8000_0000_0000_0000 }

  lemma ResultWritten(s: State, di: Inst, a: u64, b: u64)
    requires di.kind.Alu? && Has(s, di.rs1, a) && Has(s, di.rs2, b)
    ensures Writes(s, di, AluResult(di.kind.op, a, b, di.imm))
  {
    hide AluResult;
    RegisterIs(s, di);
  }

  /** The second operand, whatever it is. */
  function Second(s: State, di: Inst): (b: u64)
    ensures Has(s, di.rs2, b)
  {
    if di.rs2 == 0 then 0 else s.regs[di.rs2]
  }

  // ---- comparisons ----

  /** In two's complement the order and equality of words are those of the integers they hold. */
  lemma SignedOf(x: int)
    requires InRange(x)
    ensures Signed(x % TWO64) == x
  {
    if x < 0 { DivMod(x + TWO64, TWO64, 0, x + TWO64); ModShift(x, TWO64, -1); }
  }

  lemma Compared(op: AluOp, a: u64, b: u64, imm: int)
    ensures op == CmpEq ==> AluResult(op, a, b, imm) == Bool(Signed(a) == Signed(b))
    ensures op == CmpNe ==> AluResult(op, a, b, imm) == Bool(Signed(a) != Signed(b))
    ensures op == CmpLt ==> AluResult(op, a, b, imm) == Bool(Signed(a) < Signed(b))
    ensures op == CmpLe ==> AluResult(op, a, b, imm) == Bool(Signed(a) <= Signed(b))
  {
    hide Bitwise; hide Truncated; hide Pow2; hide Wrap;
  }

  lemma ComparisonsCompare(s: State, di: Inst, x: int, y: int)
    requires InRange(x) && InRange(y) && Has(s, di.rs1, x % TWO64) && Has(s, di.rs2, y % TWO64)
    ensures di.kind == Alu(CmpEq) ==> Writes(s, di, if x == y then 1 else 0)
    ensures di.kind == Alu(CmpNe) ==> Writes(s, di, if x == y then 0 else 1)
    ensures di.kind == Alu(CmpLt) ==> Writes(s, di, if x < y then 1 else 0)
    ensures di.kind == Alu(CmpLe) ==> Writes(s, di, if x <= y then 1 else 0)
  {
    hide Writes; hide Exec; hide AluResult; hide Signed;
    SignedOf(x);
    SignedOf(y);
    if di.kind.Alu? {
      ResultWritten(s, di, x % TWO64, y % TWO64);
      Compared(di.kind.op, x % TWO64, y % TWO64, di.imm);
    }
  }

  // ---- sums, differences and products ----

  lemma ModOfSum(x: int, y: int, m: nat)
    requires m > 0
    ensures (x % m + y % m) % m == (x + y) % m
  {
    assert x % m + y % m == x + y - m * (x / m + y / m) by {
      assert m * (x / m + y / m) == m * (x / m) + m * (y / m);
    }
    ModShift(x + y, m, x / m + y / m);
  }

  lemma ModOfDifference(x: int, y: int, m: nat)
    requires m > 0
    ensures (x % m - y % m) % m == (x - y) % m
  {
    assert x % m - y % m == x - y - m * (x / m - y / m) by {
      assert m * (x / m - y / m) == m * (x / m) - m * (y / m);
    }
    ModShift(x - y, m, x / m - y / m);
  }

  lemma ModOfProduct(x: int, y: int, m: nat)
    requires m > 0
    ensures (x % m * (y % m)) % m == (x * y) % m
  {
    var p, q, a, b := x / m, y / m, x % m, y % m;
    assert x == m * p + a && y == m * q + b;
    var k := p * y + a * q;
    assert x * y == (m * p) * y + a * y by { Distribute(m * p, a, y); }
    assert a * y == a * (m * q) + a * b;
    assert a * (m * q) == m * (a * q);
    assert (m * p) * y == m * (p * y);
    assert m * k == m * (p * y) + m * (a * q);
    ModShift(x * y, m, k);
  }

  lemma Distribute(a: int, b: int, c: int)
    ensures (a + b) * c == a * c + b * c
  {
  }

  lemma Summed(op: AluOp, a: u64, b: u64, imm: int)
    ensures op == Add ==> AluResult(op, a, b, imm) == Wrap(a + b)
    ensures op == Sub ==> AluResult(op, a, b, imm) == Wrap(a - b)
    ensures op == Mul ==> AluResult(op, a, b, imm) == Wrap(a * b)
    ensures op in {Addi, Lda} ==> AluResult(op, a, b, imm) == Wrap(a + imm)
  {
    hide Bitwise; hide Truncated; hide Pow2; hide Signed; hide Wrap;
  }

  /** On words holding any integers, modulo 2^64. */
  lemma SumsAndProducts(s: State, di: Inst, x: int, y: int)
    requires Has(s, di.rs1, x % TWO64) && Has(s, di.rs2, y % TWO64)
    ensures di.kind == Alu(Add) ==> Writes(s, di, (x + y) % TWO64)
    ensures di.kind == Alu(Sub) ==> Writes(s, di, (x - y) % TWO64)
    ensures di.kind == Alu(Mul) ==> Writes(s, di, (x * y) % TWO64)
    ensures di.kind in {Alu(Addi), Alu(Lda)} ==> Writes(s, di, (x + di.imm) % TWO64)
  {
    hide Writes; hide Exec; hide AluResult;
    if di.kind.Alu? {
      ResultWritten(s, di, x % TWO64, y % TWO64);
      Summed(di.kind.op, x % TWO64, y % TWO64, di.imm);
      ModOfSum(x, y, TWO64);
      ModOfDifference(x, y, TWO64);
      ModOfProduct(x, y, TWO64);
      ModShift(x + di.imm, TWO64, x / TWO64);
    }
  }

  /** A subtraction takes back the addition in front of it. */
  lemma SubUndoesAdd(s: State, add: Inst, sub: Inst, a: u64)
    requires add.kind == Alu(Add) && sub.kind == Alu(Sub) && add.rd != 0 && add.rd != add.rs2
    requires sub.rs1 == add.rd && sub.rs2 == add.rs2 && Has(s, add.rs1, a)
    ensures Exec(s, add).Ran? && Writes(Exec(s, add).s, sub, a)
  {
    hide Exec; hide Writes; hide Has;
    var b := Second(s, add);
    DivMod(a, TWO64, 0, a);
    DivMod(b, TWO64, 0, b);
    SumsAndProducts(s, add, a, b);
    Written(s, add, (a + b) % TWO64, b);
    SumsAndProducts(Exec(s, add).s, sub, a + b, b);
  }

  lemma Written(s: State, di: Inst, v: u64, b: u64)
    requires Writes(s, di, v) && di.rd != 0 && di.rd != di.rs2 && Has(s, di.rs2, b)
    ensures Exec(s, di).Ran? && Has(Exec(s, di).s, di.rd, v) && Has(Exec(s, di).s, di.rs2, b)
  {
    hide Exec;
  }

  // ---- quotients and remainders ----

  /** `q` and `r` are the quotient, rounded toward zero, and remainder of `x` by `y`. */
  predicate Divides(x: int, y: int, q: int, r: int) {
    x == q * y + r && (if r < 0 then -r else r) < (if y < 0 then -y else y) && (r < 0 ==> x < 0) && (r > 0 ==> x > 0)
  }

  lemma TruncatedDivides(x: int, y: int)
    requires y != 0
    ensures Divides(x, y, Truncated(x, y), x - y * Truncated(x, y))
  {
    hide Divides;
    var a, b := if x < 0 then -x else x, if y < 0 then -y else y;
    var q, r := Quotient(a, b);
    assert Truncated(x, y) == if (x < 0) == (y < 0) then q else -q;
    hide Truncated;
    Assembled(x, y, q, r);
  }

  lemma Quotient(a: nat, b: nat) returns (q: int, r: int)
    requires b > 0
    ensures q == a / b && q >= 0 && a == r + b * q && 0 <= r < b
  {
    q, r := a / b, a % b;
  }

  /** From the quotient and remainder of the absolute values. */
  lemma Assembled(x: int, y: int, q: int, r: int)
    requires y != 0 && q >= 0 && r >= 0
    requires var a, b := if x < 0 then -x else x, if y < 0 then -y else y;
      a == r + b * q && r < b
    ensures var t := if (x < 0) == (y < 0) then q else -q; Divides(x, y, t, x - y * t)
  {
    var b := if y < 0 then -y else y;
    var t := if (x < 0) == (y < 0) then q else -q;
    SignedProduct(x, y, b, q, t);
    MulAtLeast(q, b);
    assert q * b == b * q;
    SignedRemainder(x, y, b * q, r, y * t);
    assert t * y == y * t;
  }

  lemma SignedProduct(x: int, y: int, b: int, q: int, t: int)
    requires b == (if y < 0 then -y else y) && t == if (x < 0) == (y < 0) then q else -q
    ensures y * t == if x < 0 then -(b * q) else b * q
  {
    Signs(b, q);
  }

  lemma SignedRemainder(x: int, y: int, m: int, r: int, p: int)
    requires m >= 0 && r >= 0 && (if x < 0 then -x else x) == m + r && r < (if y < 0 then -y else y)
    requires p == if x < 0 then -m else m
    ensures var d := x - p;
      (if d < 0 then -d else d) < (if y < 0 then -y else y) && (d < 0 ==> x < 0) && (d > 0 ==> x > 0)
  {
  }

  lemma Signs(a: int, b: int)
    ensures -a * b == -(a * b) && a * -b == -(a * b) && -a * -b == a * b
  {
  }

  /** There is only one such pair. */
  lemma DividesOnce(x: int, y: int, q: int, r: int, q': int, r': int)
    requires y != 0 && Divides(x, y, q, r) && Divides(x, y, q', r')
    ensures q == q' && r == r'
  {
    var b := if y < 0 then -y else y;
    var k := if y < 0 then q' - q else q - q';
    assert b * k == r' - r by { assert (q - q') * y == q * y - q' * y; assert b * k == (q - q') * y; }
    if k >= 1 { MulAtLeast(b, k); }
    if k <= -1 {
      assert b * -k == -(b * k);
      MulAtLeast(b, -k);
    }
  }

  lemma Divided(op: AluOp, a: u64, b: u64, imm: int)
    ensures op == Div ==>
      AluResult(op, a, b, imm) == if b == 0 then TWO64 - 1 else Wrap(Truncated(Signed(a), Signed(b)))
    ensures op == Rem ==>
      AluResult(op, a, b, imm) == if b == 0 then a else Wrap(Signed(a) - Signed(b) * Truncated(Signed(a), Signed(b)))
    ensures op == Divu ==> AluResult(op, a, b, imm) == if b == 0 then TWO64 - 1 else Wrap(a / b)
  {
    hide Bitwise; hide Truncated; hide Pow2; hide Wrap;
  }

  /** DIV and REM round toward zero; the remainder has the sign of the dividend. */
  lemma DivisionDivides(s: State, di: Inst, x: int, y: int) returns (q: int, r: int)
    requires InRange(x) && InRange(y) && Has(s, di.rs1, x % TWO64) && Has(s, di.rs2, y % TWO64)
    ensures y != 0 ==> Divides(x, y, q, r)
    ensures y != 0 && di.kind == Alu(Div) ==> Writes(s, di, q % TWO64)
    ensures y != 0 && di.kind == Alu(Rem) ==> Writes(s, di, r % TWO64)
    ensures y == 0 && di.kind == Alu(Div) ==> Writes(s, di, 0xFFFF_FFFF_FFFF_FFFF)
    ensures y == 0 && di.kind == Alu(Rem) ==> Writes(s, di, x % TWO64)
  {
    hide Writes; hide Exec; hide AluResult;
    SignedOf(x);
    SignedOf(y);
    if y == 0 { q, r := 0, 0; } else {
      TruncatedDivides(x, y);
      q, r := Truncated(x, y), x - y * Truncated(x, y);
    }
    if di.kind.Alu? {
      hide Truncated; hide Divides; hide Signed;
      ResultWritten(s, di, x % TWO64, y % TWO64);
      Divided(di.kind.op, x % TWO64, y % TWO64, di.imm);
    }
  }

  /** A quotient lies between the dividend and 0. */
  lemma QuotientBounds(x: int, d: nat)
    requires d > 0
    ensures if x >= 0 then 0 <= x / d <= x else x <= x / d < 0
  {
    var q := x / d;
    assert x == d * q + x % d;
    if x >= 0 && q > x {
      assert d * q == q * d;
      MulAtLeast(q, d);
    }
    if x < 0 && q < x {
      assert d * -(q + 1) == -(d * q) - d && d * -(q + 1) == -(q + 1) * d;
      MulAtLeast(-(q + 1), d);
    }
  }

  lemma UnsignedDivision(s: State, di: Inst, a: u64, b: u64) returns (q: nat, r: nat)
    requires di.kind == Alu(Divu) && Has(s, di.rs1, a) && Has(s, di.rs2, b)
    ensures b != 0 ==> a == q * b + r && r < b && q < TWO64 && Writes(s, di, q)
    ensures b == 0 ==> Writes(s, di, 0xFFFF_FFFF_FFFF_FFFF)
  {
    hide Writes; hide Exec; hide AluResult;
    ResultWritten(s, di, a, b);
    Divided(Divu, a, b, di.imm);
    if b == 0 { q, r := 0, 0; } else {
      q, r := a / b, a % b;
      QuotientTimes(a, b);
      QuotientBounds(a, b);
      DivMod(q, TWO64, 0, q);
      assert b * q == q * b;
    }
  }

  // ---- shifts ----

  /** Two to the power `n`. */
  function Exp2(n: nat): (p: nat)
    ensures p > 0
  {
    if n == 0 then 1 else Exp2(n - 1) + Exp2(n - 1)
  }

  lemma {:induction false} PowersAgree(n: nat)
    ensures Pow2(n) == Exp2(n)
  {
    if n > 0 { PowersAgree(n - 1); }
  }

  lemma Shifted(op: AluOp, a: u64, n: u64, imm: int)
    ensures op == Shl ==> AluResult(op, a, n, imm) == Wrap(a * Exp2(n % 64))
    ensures op == Shr ==> AluResult(op, a, n, imm) == Wrap(a / Exp2(n % 64))
    ensures op == Sar ==> AluResult(op, a, n, imm) == Wrap(Signed(a) / Exp2(n % 64))
  {
    hide Bitwise; hide Truncated; hide Wrap; hide Signed; hide Exp2; hide Pow2;
    PowersAgree(n % 64);
  }

  /** Shifts take the low six bits of the count: times, or divided with rounding down by, a power of two. */
  lemma ShiftsScale(s: State, di: Inst, x: int, n: u64)
    requires Has(s, di.rs1, x % TWO64) && Has(s, di.rs2, n)
    ensures di.kind == Alu(Shl) ==> Writes(s, di, (x * Exp2(n % 64)) % TWO64)
    ensures di.kind == Alu(Shr) && 0 <= x < TWO64 ==> Writes(s, di, (x / Exp2(n % 64)) % TWO64)
    ensures di.kind == Alu(Sar) && InRange(x) ==> Writes(s, di, (x / Exp2(n % 64)) % TWO64)
  {
    hide Writes; hide Exec; hide AluResult; hide Exp2; hide Signed;
    var p := Exp2(n % 64);
    if di.kind.Alu? {
      ResultWritten(s, di, x % TWO64, n);
      Shifted(di.kind.op, x % TWO64, n, di.imm);
    }
    if di.kind == Alu(Shl) { WrappedProduct(x, p); }
    if di.kind == Alu(Shr) && 0 <= x < TWO64 {
      QuotientBounds(x, p);
      DivMod(x, TWO64, 0, x);
      DivMod(x / p, TWO64, 0, x / p);
    }
    if di.kind == Alu(Sar) && InRange(x) { SignedOf(x); }
  }

  lemma WrappedProduct(x: int, p: int)
    ensures Wrap(x % TWO64 * p) == (x * p) % TWO64
  {
    assert x % TWO64 == x - TWO64 * (x / TWO64);
    assert x % TWO64 * p == x * p - TWO64 * (x / TWO64 * p) by {
      Distribute(x, -(TWO64 * (x / TWO64)), p);
      MulThreeOfInts(TWO64, x / TWO64, p);
      Signs(TWO64 * (x / TWO64), p);
    }
    ModShift(x * p, TWO64, x / TWO64 * p);
  }

  lemma MulThreeOfInts(a: int, b: int, c: int)
    ensures a * b * c == a * (b * c)
  {
  }

  // ---- bits ----

  /** Bit `k` of a word. */
  predicate Bit(v: nat, k: nat) { if k == 0 then v % 2 == 1 else Bit(v / 2, k - 1) }

  /** The bits of a word determine it. */
  lemma {:induction false} BitsDetermine(v: nat, w: nat, n: nat)
    requires v < Exp2(n) && w < Exp2(n) && forall k: nat | k < n :: Bit(v, k) == Bit(w, k)
    ensures v == w
  {
    if n > 0 {
      assert Bit(v, 0) == Bit(w, 0);
      forall k: nat | k < n - 1 ensures Bit(v / 2, k) == Bit(w / 2, k) {
        assert Bit(v, k + 1) == Bit(w, k + 1);
      }
      BitsDetermine(v / 2, w / 2, n - 1);
    }
  }

  lemma Exp2Of64()
    ensures Exp2(64) == TWO64
  {
    assert Exp2(8) == 0x100;
    assert Exp2(16) == 0x1_0000;
    assert Exp2(24) == 0x100_0000;
    assert Exp2(32) == 0x1_0000_0000;
    assert Exp2(40) == 0x100_0000_0000;
    assert Exp2(48) == 0x1_0000_0000_0000;
    assert Exp2(56) == 0x100_0000_0000_0000;
  }

  /** The operation one bit at a time. */
  predicate OneBit(op: AluOp, x: bool, y: bool) {
    if op == And then x && y else if op == Or then x || y else x != y
  }

  lemma {:induction false} BitwiseBits(op: AluOp, a: nat, b: nat, n: nat, k: nat)
    requires op in {And, Or, Xor} && k < n
    ensures Bit(Bitwise(op, a, b, n), k) == OneBit(op, Bit(a, k), Bit(b, k))
  {
    hide BitOf; hide OneBit;
    OneBitSmall(op, a, b);
    var low, rest := BitOf(op, a, b), Bitwise(op, a / 2, b / 2, n - 1);
    DivMod(low + 2 * rest, 2, rest, low);
    if k > 0 { BitwiseBits(op, a / 2, b / 2, n - 1, k - 1); }
  }

  lemma OneBitSmall(op: AluOp, a: nat, b: nat)
    requires op in {And, Or, Xor}
    ensures BitOf(op, a, b) <= 1 && (BitOf(op, a, b) == 1) == OneBit(op, a % 2 == 1, b % 2 == 1)
  {
    if a % 2 == 0 { assert a % 2 * (b % 2) == 0; } else { assert a % 2 * (b % 2) == b % 2; }
  }

  lemma {:induction false} BitwiseBounded(op: AluOp, a: nat, b: nat, n: nat)
    requires op in {And, Or, Xor}
    ensures Bitwise(op, a, b, n) < Exp2(n)
  {
    hide BitOf;
    if n > 0 {
      OneBitSmall(op, a, b);
      BitwiseBounded(op, a / 2, b / 2, n - 1);
    }
  }

  lemma WordBits(op: AluOp, a: nat, b: nat)
    requires op in {And, Or, Xor}
    ensures var v := Bitwise(op, a, b, 64);
      v < TWO64 && forall k: nat | k < 64 :: Bit(v, k) == OneBit(op, Bit(a, k), Bit(b, k))
  {
    BitwiseBounded(op, a, b, 64);
    Exp2Of64();
    forall k: nat | k < 64 ensures Bit(Bitwise(op, a, b, 64), k) == OneBit(op, Bit(a, k), Bit(b, k)) {
      BitwiseBits(op, a, b, 64, k);
    }
  }

  lemma {:induction false} ComplementBits(v: nat, n: nat, k: nat)
    requires k < n && v < Exp2(n)
    ensures Bit(Exp2(n) - 1 - v, k) == !Bit(v, k)
  {
    var w, p := Exp2(n) - 1 - v, Exp2(n - 1);
    assert v == v / 2 * 2 + v % 2 && w == 2 * (p - 1 - v / 2) + (1 - v % 2);
    DivMod(w, 2, p - 1 - v / 2, 1 - v % 2);
    if k > 0 { ComplementBits(v / 2, n - 1, k - 1); }
  }

  lemma BitResults(op: AluOp, a: u64, b: u64, imm: int)
    ensures op in {And, Or, Xor} ==> AluResult(op, a, b, imm) == Wrap(Bitwise(op, a, b, 64))
    ensures op == Not ==> AluResult(op, a, b, imm) == TWO64 - 1 - a
    ensures op == Movz ==> AluResult(op, a, b, imm) == Wrap(Bitwise(Or, a, imm % 0x8000, 64))
    ensures op == Lui ==>
      AluResult(op, a, b, imm) == Wrap(Bitwise(Or, a, Wrap(imm % 0x8000 * 0x2_0000_0000_0000), 64))
    ensures op in {Mov, Retain, ChkB} ==> AluResult(op, a, b, imm) == a
    ensures op in {Release, AllocBump, RdProf} ==> AluResult(op, a, b, imm) == 0
  {
    hide Bitwise; hide Truncated; hide Pow2; hide Wrap; hide Signed;
  }

  /** AND, OR, XOR and NOT work on each of the 64 bits by itself. */
  lemma BitByBit(s: State, di: Inst, a: u64, b: u64) returns (v: u64)
    requires di.kind in {Alu(And), Alu(Or), Alu(Xor), Alu(Not)} && Has(s, di.rs1, a) && Has(s, di.rs2, b)
    ensures Writes(s, di, v)
    ensures di.kind == Alu(And) ==> forall k: nat | k < 64 :: Bit(v, k) == (Bit(a, k) && Bit(b, k))
    ensures di.kind == Alu(Or) ==> forall k: nat | k < 64 :: Bit(v, k) == (Bit(a, k) || Bit(b, k))
    ensures di.kind == Alu(Xor) ==> forall k: nat | k < 64 :: Bit(v, k) == (Bit(a, k) != Bit(b, k))
    ensures di.kind == Alu(Not) ==> forall k: nat | k < 64 :: Bit(v, k) == !Bit(a, k)
  {
    hide Writes; hide Exec; hide Bit; hide Bitwise; hide Exp2; hide AluResult;
    ResultWritten(s, di, a, b);
    BitResults(di.kind.op, a, b, di.imm);
    if di.kind.op == Not {
      v := TWO64 - 1 - a;
      Exp2Of64();
      forall k: nat | k < 64 ensures Bit(v, k) == !Bit(a, k) { ComplementBits(a, 64, k); }
    } else {
      WordBits(di.kind.op, a, b);
      v := Bitwise(di.kind.op, a, b, 64);
      DivMod(v, TWO64, 0, v);
    }
  }

  lemma {:induction false} BitBeyond(v: nat, n: nat, k: nat)
    requires v < Exp2(n) && n <= k
    ensures !Bit(v, k)
  {
    if k > 0 { BitBeyond(v / 2, if n > 0 then n - 1 else 0, k - 1); }
  }

  lemma {:induction false} ShiftedBit(v: nat, n: nat, k: nat)
    ensures Bit(v * Exp2(n), k) == (n <= k && Bit(v, k - n))
    decreases n
  {
    if n > 0 {
      assert v * Exp2(n) == 2 * (v * Exp2(n - 1));
      DivMod(v * Exp2(n), 2, v * Exp2(n - 1), 0);
      if k > 0 { ShiftedBit(v, n - 1, k - 1); }
    } else {
      assert v * Exp2(0) == v;
    }
  }

  /** Is bit `k` set by a 15-bit field at the low or the high end of a word? */
  predicate Placed(field: nat, low: bool, k: nat) {
    if low then k < 15 && Bit(field, k) else 49 <= k && Bit(field, k - 49)
  }

  /** MOVZ sets bits 0 to 14 and LUI bits 49 to 63 from the immediate; the other bits are the register's. */
  lemma ImmediatePlaced(s: State, di: Inst, a: u64) returns (v: u64)
    requires di.kind in {Alu(Movz), Alu(Lui)} && Has(s, di.rs1, a)
    ensures Writes(s, di, v)
    ensures forall k: nat | k < 64 :: Bit(v, k) == (Bit(a, k) || Placed(di.imm % 0x8000, di.kind == Alu(Movz), k))
    ensures a == 0 ==> v == di.imm % 0x8000 * if di.kind == Alu(Movz) then 1 else 0x2_0000_0000_0000
  {
    hide Writes; hide Exec; hide Bit; hide Bitwise; hide Exp2; hide AluResult;
    ResultWritten(s, di, a, Second(s, di));
    BitResults(di.kind.op, a, Second(s, di), di.imm);
    var low := di.imm % 0x8000;
    var field := if di.kind == Alu(Movz) then low else low * 0x2_0000_0000_0000;
    DivMod(field, TWO64, 0, field);
    WordBits(Or, a, field);
    v := Bitwise(Or, a, field, 64);
    DivMod(v, TWO64, 0, v);
    SmallPowers();
    forall k: nat | k < 64 ensures Bit(field, k) == Placed(low, di.kind == Alu(Movz), k) {
      if di.kind == Alu(Movz) { if k >= 15 { BitBeyond(low, 15, k); } } else { ShiftedBit(low, 49, k); }
    }
    if a == 0 { OnlyField(v, field); }
  }

  lemma SmallPowers()
    ensures Exp2(15) == 0x8000 && Exp2(49) == 0x2_0000_0000_0000
  {
    assert Exp2(8) == 0x100;
    assert Exp2(16) == 0x1_0000;
    assert Exp2(24) == 0x100_0000;
    assert Exp2(32) == 0x1_0000_0000;
    assert Exp2(40) == 0x100_0000_0000;
    assert Exp2(48) == 0x1_0000_0000_0000;
  }

  lemma {:induction false} ZeroBits(k: nat)
    ensures !Bit(0, k)
  {
    if k > 0 { ZeroBits(k - 1); }
  }

  lemma OnlyField(v: u64, field: u64)
    requires forall k: nat | k < 64 :: Bit(v, k) == OneBit(Or, Bit(0, k), Bit(field, k))
    ensures v == field
  {
    forall k: nat | k < 64 ensures Bit(v, k) == Bit(field, k) { ZeroBits(k); }
    Exp2Of64();
    BitsDetermine(v, field, 64);
  }

  // ---- the rest ----

  /** MOV, RETAIN and CHKB copy; RELEASE, ALLOC.BUMP and RDPROF clear. */
  lemma CopiesAndClears(s: State, di: Inst, a: u64)
    requires Has(s, di.rs1, a)
    ensures di.kind in {Alu(Mov), Alu(Retain), Alu(ChkB)} ==> Writes(s, di, a)
    ensures di.kind in {Alu(Release), Alu(AllocBump), Alu(RdProf)} ==> Writes(s, di, 0)
  {
    hide Writes; hide Exec; hide AluResult;
    if di.kind.Alu? {
      ResultWritten(s, di, a, Second(s, di));
      BitResults(di.kind.op, a, Second(s, di), di.imm);
    }
  }
}
