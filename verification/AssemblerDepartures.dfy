/**
  Where assembly departs from the line as written: the operand behind a mnemonic is lost, a
  mnemonic without operands takes the next line for them, and byte displacements are executed
  as words.
 */
module AssemblerDepartures {
  import opened Ast
  import opened Words
  import opened Encoder
  import opened Assembler
  import opened EncoderTheorems
  import opened AssemblerListing
  import opened Mnemonics
  import C = Cpu

  // ---- lines as they are written ----

  datatype Op = Reg(r: nat) | Imm(n: int) | Label(name: string)

  predicate IsOp(op: Op) { op.Reg? ==> op.r < 32 }

  predicate AllOps(ops: seq<Op>) { forall k | 0 <= k < |ops| :: IsOp(ops[k]) }

  predicate Numbers(rs: seq<nat>) { forall k | 0 <= k < |rs| :: rs[k] < 32 }

  function OpTokens(op: Op): Tokens
    requires IsOp(op)
  {
    match op
    case Reg(r) => [RegToken(r)]
    case Imm(n) => ImmTokens(n)
    case Label(name) => [Lexeme(Ident, name)]
  }

  /** Operands separated by commas, then the end of the line. */
  function ListOps(ops: seq<Op>, rest: Tokens): Tokens
    requires AllOps(ops)
  {
    if ops == [] then [NEWLINE_TOKEN] + rest
    else
      OpTokens(ops[0]) + (if |ops| == 1 then [NEWLINE_TOKEN] + rest else [COMMA_TOKEN] + ListOps(ops[1..], rest))
  }

  function Line(i: Index, ops: seq<Op>, rest: Tokens): Tokens
    requires AllOps(ops)
  {
    [Lexeme(Ident, Entry(i).mnemonic)] + ListOps(ops, rest)
  }

  /** What the operand loop makes of one operand. */
  function TakeOp(st: Asm, b: bool, p: Parsed, op: Op): Parsed
    requires IsOp(op)
  {
    match op
    case Reg(r) => IdentOperand(st, b, p, Numbered(r))
    case Imm(n) => WithImm(p, n)
    case Label(name) => IdentOperand(st, b, p, name)
  }

  function TakeOps(st: Asm, b: bool, p: Parsed, ops: seq<Op>): Parsed
    requires AllOps(ops)
    decreases |ops|
  {
    if ops == [] then p else TakeOps(st, b, TakeOp(st, b, p, ops[0]), ops[1..])
  }

  lemma CommaSkipped(st: Asm, b: bool, p: Parsed, ts: Tokens)
    ensures ParseOperands(st, b, p, [COMMA_TOKEN] + ts) == ParseOperands(st, b, p, ts)
  {
    assert Rest([COMMA_TOKEN] + ts) == ts;
  }

  /** One operand before more tokens. */
  lemma OpParses(st: Asm, b: bool, p: Parsed, op: Op, ts: Tokens)
    requires IsOp(op)
    ensures ParseOperands(st, b, p, OpTokens(op) + ts) == ParseOperands(st, b, TakeOp(st, b, p, op), ts)
  {
    hide IdentOperand; hide Numbered;
    var all := OpTokens(op) + ts;
    match op
    case Reg(r) => assert Rest(all) == ts;
    case Imm(n) =>
      if n < 0 {
        assert all == [Lexeme(Minus, "-")] + ([AssemblerListing.Number(-n)] + ts);
        assert Rest(all) == [AssemblerListing.Number(-n)] + ts && Rest([AssemblerListing.Number(-n)] + ts) == ts;
      } else {
        assert Rest(all) == ts;
      }
    case Label(name) => assert Rest(all) == ts;
  }

  /** The operand loop takes the operands in order, then the end of the line. */
  lemma {:induction false} OpsParse(st: Asm, b: bool, p: Parsed, ops: seq<Op>, rest: Tokens)
    requires AllOps(ops)
    ensures ParseOperands(st, b, p, ListOps(ops, rest)) == (TakeOps(st, b, p, ops), rest)
    decreases |ops|
  {
    hide ParseOperands; hide OpTokens; hide TakeOp; hide IsOp;
    if ops == [] {
      EndOfLine(st, b, p, rest);
    } else {
      var q := TakeOp(st, b, p, ops[0]);
      if |ops| == 1 {
        OpParses(st, b, p, ops[0], [NEWLINE_TOKEN] + rest);
        EndOfLine(st, b, q, rest);
      } else {
        OpParses(st, b, p, ops[0], [COMMA_TOKEN] + ListOps(ops[1..], rest));
        CommaSkipped(st, b, q, ListOps(ops[1..], rest));
        OpsParse(st, b, q, ops[1..], rest);
      }
    }
  }

  // ---- the operand that is lost ----

  /** What is left of the operands: all but the first, or the number without its sign. */
  function Remaining(ops: seq<Op>): (r: seq<Op>)
    requires ops != [] && AllOps(ops)
    ensures AllOps(r)
  {
    if ops[0].Imm? && ops[0].n < 0 then [Imm(-ops[0].n)] + ops[1..] else ops[1..]
  }

  /** The instruction a line assembles to. */
  function Assembles(st: Asm, i: Index, p: Parsed): seq<byte> {
    EncodeInstruction(Instantiate(Entry(i), OperandsOf(p))).bytes
  }

  /** Whatever the operands, the token behind the mnemonic is lost: the first operand, or a minus sign. */
  lemma FirstOperandLost(st: Asm, i: Index, ops: seq<Op>, rest: Tokens)
    requires AllOps(ops) && ops != []
    ensures var p := TakeOps(st, IsBranch(Entry(i)), NO_OPERANDS, Remaining(ops));
      Round(st, Line(i, ops, rest)) == Advance(Append(st, Assembles(st, i, p)), rest)
  {
    hide Entry; hide ParseOperands; hide EncodeInstruction; hide Instantiate; hide Round; hide IsBranch; hide TakeOps;
    hide Numbered; hide OperandsOf; hide IsOp; hide OpTokens; hide ListOps; hide Line; hide Remaining;
    var tail := Behind(ops, rest);
    TailParses(st, IsBranch(Entry(i)), ops, rest);
    LineSplits(i, ops, rest);
    AheadTokenDropped(st, i, OpTokens(ops[0])[0], OpTokens(ops[0])[1..] + tail);
  }

  /** The tokens behind the first operand. */
  function Behind(ops: seq<Op>, rest: Tokens): Tokens
    requires AllOps(ops) && ops != []
  {
    if |ops| == 1 then [NEWLINE_TOKEN] + rest else [COMMA_TOKEN] + ListOps(ops[1..], rest)
  }

  lemma LineSplits(i: Index, ops: seq<Op>, rest: Tokens)
    requires AllOps(ops) && ops != []
    ensures var t := OpTokens(ops[0]);
      t != [] && !t[0].kind.Colon? && !t[0].kind.End?
      && Line(i, ops, rest) == [Lexeme(Ident, Entry(i).mnemonic)] + ([t[0]] + (t[1..] + Behind(ops, rest)))
  {
    hide Entry; hide Numbered;
    var t, tail := OpTokens(ops[0]), Behind(ops, rest);
    assert ListOps(ops, rest) == t + tail;
    assert t + tail == [t[0]] + (t[1..] + tail);
  }

  /** What the operand loop sees once that token is gone. */
  lemma TailParses(st: Asm, b: bool, ops: seq<Op>, rest: Tokens)
    requires AllOps(ops) && ops != []
    ensures OpTokens(ops[0]) != []
    ensures ParseOperands(st, b, NO_OPERANDS, OpTokens(ops[0])[1..] + Behind(ops, rest))
      == (TakeOps(st, b, NO_OPERANDS, Remaining(ops)), rest)
  {
    hide ParseOperands; hide TakeOps; hide Numbered; hide IsOp;
    var left := Remaining(ops);
    var tail := Behind(ops, rest);
    OpsParse(st, b, NO_OPERANDS, left, rest);
    if ops[0].Imm? && ops[0].n < 0 {
      assert OpTokens(ops[0])[1..] == OpTokens(left[0]);
      assert left[1..] == ops[1..];
    } else {
      assert OpTokens(ops[0])[1..] + tail == tail;
      if |ops| > 1 { CommaSkipped(st, b, NO_OPERANDS, ListOps(ops[1..], rest)); }
    }
  }

  /** Without operands the end of the line is lost: the next line is taken for the operands. */
  lemma OperandlessTakesNextLine(st: Asm, i: Index, line: Tokens)
    ensures Round(st, Line(i, [], line)) == AssembleInst(st, i, line)
  {
    hide Entry; hide AssembleInst; hide Round;
    AheadTokenDropped(st, i, NEWLINE_TOKEN, line);
  }

  /** So the next line is left alone exactly when there is none. */
  lemma OperandlessRightExactlyWhen(st: Asm, i: Index, line: Tokens)
    ensures Round(st, Line(i, [], line)) == Advance(Append(st, Assembles(st, i, NO_OPERANDS)), line)
      <==> Peek(line).kind.End?
  {
    hide Entry; hide EncodeInstruction; hide Instantiate; hide Round; hide ParseOperands;
    OperandlessTakesNextLine(st, i, line);
    OperandsTakeTokens(st, IsBranch(Entry(i)), NO_OPERANDS, line);
  }

  lemma OperandsTakeTokens(st: Asm, b: bool, p: Parsed, ts: Tokens)
    ensures Peek(ts).kind.End? ==> ParseOperands(st, b, p, ts) == (p, ts)
    ensures !Peek(ts).kind.End? ==> |ParseOperands(st, b, p, ts).1| < |ts|
  {
    hide IdentOperand; hide MinusOperand; hide PlusOperand;
    if Peek(ts).kind.End? { assert Rest(ts) == ts; }
  }

  // ---- when the line still assembles to the instruction written ----

  /** The instruction written: branch formats name their two registers first. */
  function Written(st: Asm, i: Index, ops: seq<Op>): Operands
    requires AllOps(ops)
  {
    var p := TakeOps(st, IsBranch(Entry(i)), NO_OPERANDS, ops);
    var o := OperandsOf(p);
    if Entry(i).format.B? then Operands(0, o.rd, o.rs1, o.imm, 0) else o
  }

  function WrittenBytes(st: Asm, i: Index, ops: seq<Op>): seq<byte>
    requires AllOps(ops)
  {
    EncodeInstruction(Instantiate(Entry(i), Written(st, i, ops))).bytes
  }

  /** A line with operands appends the instruction written. */
  predicate LineRight(st: Asm, i: Index, ops: seq<Op>, rest: Tokens)
    requires AllOps(ops)
  {
    Round(st, Line(i, ops, rest)) == Advance(Append(st, WrittenBytes(st, i, ops)), rest)
  }

  lemma LineRightExactlyWhen(st: Asm, i: Index, ops: seq<Op>, rest: Tokens)
    requires AllOps(ops) && ops != []
    ensures LineRight(st, i, ops, rest) <==>
      Assembles(st, i, TakeOps(st, IsBranch(Entry(i)), NO_OPERANDS, Remaining(ops))) == WrittenBytes(st, i, ops)
  {
    hide Entry; hide Assembles; hide WrittenBytes; hide TakeOps; hide Round; hide Remaining; hide IsBranch; hide Line;
    FirstOperandLost(st, i, ops, rest);
    var a, b := Assembles(st, i, TakeOps(st, IsBranch(Entry(i)), NO_OPERANDS, Remaining(ops))),
      WrittenBytes(st, i, ops);
    if st.data + a == st.data + b {
      assert (st.data + a)[|st.data|..] == a && (st.data + b)[|st.data|..] == b;
    }
  }

  /** Instructions of one table entry have the same bytes exactly when they have the same payload. */
  lemma SamePayload(i: Index, o: Operands, o': Operands)
    requires Payload(Instantiate(Entry(i), o)) < TWO32 && Payload(Instantiate(Entry(i), o')) < TWO32
    ensures EncodeInstruction(Instantiate(Entry(i), o)).bytes == EncodeInstruction(Instantiate(Entry(i), o')).bytes
      <==> Payload(Instantiate(Entry(i), o)) == Payload(Instantiate(Entry(i), o'))
  {
    hide Entry; hide Payload; hide Le; hide FromLe; hide Pow256; hide Uleb128; hide Padding;
    var x, y := Instantiate(Entry(i), o), Instantiate(Entry(i), o');
    var m, n := Payload(x), Payload(y);
    Pow256Values();
    FromLeOfLe(m, 4);
    FromLeOfLe(n, 4);
    var head := [] + [0xFE] + Uleb128(x.opcode);
    var front := head + Padding(4 - |head|);
    if EncodeInstruction(x).bytes == EncodeInstruction(y).bytes && x.encoding.Escape32? {
      assert (front + Le(m, 4))[|front|..] == Le(m, 4) && (front + Le(n, 4))[|front|..] == Le(n, 4);
    }
  }

  lemma I32Exact(op: nat, a: nat, b: nat, c: nat, d: nat, imm: int)
    requires a < 32 && b < 32 && c < 32 && d < 32
    ensures EncodeI32(op, a, b, imm) < TWO32
    ensures EncodeI32(op, a, b, imm) == EncodeI32(op, c, d, imm) <==> a == c && b == d
  {
    hide EncodeI32; hide Join; hide OpcodeField;
    var top, low := op % 0x80, imm % 0x8000;
    IWord(op, top, a, b, imm, low);
    IWord(op, top, c, d, imm, low);
    TwoRegisterFields(top, a, b, low);
    TwoRegisterFields(top, c, d, low);
  }

  lemma J32Exact(op: nat, a: nat, m: int, c: nat, n: int)
    requires a < 32 && c < 32
    ensures EncodeJ32(op, a, m) < TWO32
    ensures EncodeJ32(op, a, m) == EncodeJ32(op, c, n) <==> a == c && m % 0x10_0000 == n % 0x10_0000
  {
    hide EncodeJ32; hide Join; hide OpcodeField;
    var top, low, low' := op % 0x80, m % 0x10_0000, n % 0x10_0000;
    JWord(op, top, a, m, low);
    JWord(op, top, c, n, low');
    var w, w' := Join(Join(top, 32, a), 0x10_0000, low), Join(Join(top, 32, c), 0x10_0000, low');
    TopFields(w, top, a, low);
    TopFields(w', top, c, low');
    Split(Join(top, 32, a), 0x10_0000, low);
    Split(Join(top, 32, c), 0x10_0000, low');
  }

  lemma R32Exact(op: nat, o: Operands, o': Operands)
    requires Registers(o) && Registers(o') && 0 <= o.func < 0x400 && o'.func == o.func
    ensures var w, w' := EncodeR32(op, o.rd, o.rs1, o.rs2, o.func), EncodeR32(op, o'.rd, o'.rs1, o'.rs2, o'.func);
      w < TWO32 && w' < TWO32 && (w == w' <==> o.rd == o'.rd && o.rs1 == o'.rs1 && o.rs2 == o'.rs2)
  {
    hide EncodeR32; hide OpcodeField;
    RFields(op, o);
    RFields(op, o');
  }

  function RegOps(rs: seq<nat>): (ops: seq<Op>)
    requires Numbers(rs)
    ensures |ops| == |rs| && AllOps(ops) && forall k | 0 <= k < |rs| :: ops[k] == Reg(rs[k])
  {
    seq(|rs|, k requires 0 <= k < |rs| => Reg(rs[k]))
  }

  /** Registers by number are taken in order, three at most. */
  lemma {:induction false} RegOpsTaken(st: Asm, b: bool, p: Parsed, rs: seq<nat>)
    requires Numbers(rs) && |p.regs| + |rs| <= 3
    ensures TakeOps(st, b, p, RegOps(rs)) == p.(regs := p.regs + rs)
    decreases |rs|
  {
    hide ParseReg; hide Numbered; hide LabelValue;
    if rs == [] {
      assert p.regs + rs == p.regs;
    } else {
      NumberedParses(rs[0]);
      assert RegOps(rs)[1..] == RegOps(rs[1..]);
      RegOpsTaken(st, b, p.(regs := p.regs + [rs[0] as int]), rs[1..]);
      assert p.regs + [rs[0] as int] + rs[1..] == p.regs + rs;
    }
  }

  /** `op ra`, `op ra, rb` and `op ra, rb, rc` in format R are right exactly when all registers are r0. */
  lemma RegistersRightExactlyWhen(st: Asm, i: Index, rs: seq<nat>, rest: Tokens)
    requires Numbers(rs) && 1 <= |rs| <= 3 && Entry(i).format.R?
    ensures LineRight(st, i, RegOps(rs), rest) <==> forall k | 0 <= k < |rs| :: rs[k] == 0
  {
    EntryShape(i);
    hide Entry; hide TakeOps; hide EncodeInstruction; hide LineRight; hide EncodeR32; hide RegOps; hide Line;
    LineRightExactlyWhen(st, i, RegOps(rs), rest);
    RegOpsTaken(st, IsBranch(Entry(i)), NO_OPERANDS, rs);
    assert Remaining(RegOps(rs)) == RegOps(rs[1..]);
    RegOpsTaken(st, IsBranch(Entry(i)), NO_OPERANDS, rs[1..]);
    var f := if Entry(i).func >= 0 then Entry(i).func else 0;
    var o := OperandsOf(Parsed([] + rs, 0, false)).(func := f);
    var o' := OperandsOf(Parsed([] + rs[1..], 0, false)).(func := f);
    R32Exact(Entry(i).opcode, o', o);
    SamePayload(i, OperandsOf(Parsed([] + rs[1..], 0, false)), OperandsOf(Parsed([] + rs, 0, false)));
  }

  /** `op ra, imm` and `op ra, rb, imm` in format I are right exactly when all registers are r0. */
  lemma ImmediateRightExactlyWhen(st: Asm, i: Index, rs: seq<nat>, n: int, rest: Tokens)
    requires Numbers(rs) && 1 <= |rs| <= 2 && Entry(i).format.I?
    ensures AllOps(RegOps(rs) + [Imm(n)])
    ensures LineRight(st, i, RegOps(rs) + [Imm(n)], rest) <==> forall k | 0 <= k < |rs| :: rs[k] == 0
  {
    EntryShape(i);
    hide Entry; hide EncodeInstruction; hide LineRight; hide EncodeI32; hide Line; hide ParseReg; hide Numbered;
    hide RegOps; hide TakeOps; hide Int32;
    var ops := RegOps(rs) + [Imm(n)];
    LineRightExactlyWhen(st, i, ops, rest);
    TakenWithValue(st, IsBranch(Entry(i)), rs, Imm(n), n);
    TakenWithValue(st, IsBranch(Entry(i)), rs[1..], Imm(n), n);
    assert Remaining(ops) == RegOps(rs[1..]) + [Imm(n)];
    var v := Int32(n);
    var o, o' := OperandsOf(Parsed(rs[1..], n, true)), OperandsOf(Parsed(rs, n, true));
    I32Exact(Entry(i).opcode, o.rd, o.rs1, o'.rd, o'.rs1, v);
    I32Exact(Entry(i).opcode, o'.rd, o'.rs1, o.rd, o.rs1, v);
    SamePayload(i, o, o');
  }

  /** Registers, then an immediate or a label that is no register. */
  lemma TakenWithValue(st: Asm, b: bool, rs: seq<nat>, last: Op, v: int)
    requires Numbers(rs) && |rs| <= 3
    requires if last.Imm? then v == last.n
      else last.Label? && ParseReg(last.name) < 0 && v == LabelValue(st, b, last.name, 0)
    ensures AllOps(RegOps(rs) + [last])
    ensures TakeOps(st, b, NO_OPERANDS, RegOps(rs) + [last]) == Parsed(rs, v, true)
  {
    hide ParseReg; hide LabelValue; hide Numbered; hide RegOps;
    RegOpsTaken(st, b, NO_OPERANDS, rs);
    TakeOpsAppend(st, b, NO_OPERANDS, RegOps(rs), [last]);
    assert [] + rs == rs;
  }

  lemma {:induction false} TakeOpsAppend(st: Asm, b: bool, p: Parsed, ops: seq<Op>, more: seq<Op>)
    requires AllOps(ops) && AllOps(more)
    ensures AllOps(ops + more)
    ensures TakeOps(st, b, p, ops + more) == TakeOps(st, b, TakeOps(st, b, p, ops), more)
    decreases |ops|
  {
    hide TakeOp; hide IsOp;
    if ops == [] {
      assert ops + more == more;
    } else {
      assert (ops + more)[1..] == ops[1..] + more;
      TakeOpsAppend(st, b, TakeOp(st, b, p, ops[0]), ops[1..], more);
    }
  }

  /**
    `op ra, rb, label` in format B: the register kept is none the format reads, so the branch
    compares r0 with r0; that is what is written exactly when both registers are r0.
   */
  lemma BranchRightExactlyWhen(st: Asm, i: Index, a: nat, b: nat, target: string, rest: Tokens)
    requires a < 32 && b < 32 && Entry(i).format.B? && ParseReg(target) < 0
    ensures var o := OperandsOf(TakeOps(st, true, NO_OPERANDS, Remaining([Reg(a), Reg(b), Label(target)])));
      o.rs1 == 0 && o.rs2 == 0
    ensures LineRight(st, i, [Reg(a), Reg(b), Label(target)], rest) <==> a == 0 && b == 0
  {
    EntryShape(i);
    hide Entry; hide EncodeInstruction; hide LineRight; hide EncodeI32; hide Line; hide ParseReg; hide Numbered;
    hide LabelValue; hide Int32;
    var ops := [Reg(a), Reg(b), Label(target)];
    var v := LabelValue(st, true, target, 0);
    LineRightExactlyWhen(st, i, ops, rest);
    TakenWithValue(st, true, [a, b], Label(target), v);
    TakenWithValue(st, true, [b], Label(target), v);
    assert ops == RegOps([a, b]) + [Label(target)] && Remaining(ops) == RegOps([b]) + [Label(target)];
    var n := Int32(v);
    I32Exact(Entry(i).opcode, 0, 0, a, b, n);
    I32Exact(Entry(i).opcode, a, b, 0, 0, n);
    SamePayload(i, Operands(b, 0, 0, n, 0), Operands(0, a, b, n, 0));
  }

  /** `op label` in format J loses the label: right exactly when the displacement's low 20 bits are zero. */
  lemma JumpRightExactlyWhen(st: Asm, i: Index, target: string, rest: Tokens)
    requires Entry(i).format.J? && ParseReg(target) < 0
    ensures LineRight(st, i, [Label(target)], rest) <==> LabelValue(st, true, target, 0) % 0x10_0000 == 0
  {
    EntryShape(i);
    hide Entry; hide EncodeInstruction; hide LineRight; hide EncodeJ32; hide Line; hide ParseReg; hide Numbered;
    hide LabelValue; hide Int32;
    var ops := [Label(target)];
    var v := LabelValue(st, true, target, 0);
    LineRightExactlyWhen(st, i, ops, rest);
    TakenWithValue(st, true, [], Label(target), v);
    assert ops == RegOps([]) + [Label(target)] && Remaining(ops) == [];
    var n := Int32(v);
    Int32Bits(v);
    J32Exact(Entry(i).opcode, 0, 0, 0, n);
    J32Exact(Entry(i).opcode, 0, n, 0, 0);
    SamePayload(i, Operands(0, 0, 0, 0, 0), Operands(0, 0, 0, n, 0));
  }

  /** `op ra, label` in format J loses the register: right exactly when it is r0. */
  lemma JumpLinkRightExactlyWhen(st: Asm, i: Index, a: nat, target: string, rest: Tokens)
    requires a < 32 && Entry(i).format.J? && ParseReg(target) < 0
    ensures LineRight(st, i, [Reg(a), Label(target)], rest) <==> a == 0
  {
    EntryShape(i);
    hide Entry; hide EncodeInstruction; hide LineRight; hide EncodeJ32; hide Line; hide ParseReg; hide Numbered;
    hide LabelValue; hide Int32;
    var ops := [Reg(a), Label(target)];
    var v := LabelValue(st, true, target, 0);
    LineRightExactlyWhen(st, i, ops, rest);
    TakenWithValue(st, true, [a], Label(target), v);
    TakenWithValue(st, true, [], Label(target), v);
    assert ops == RegOps([a]) + [Label(target)] && Remaining(ops) == RegOps([]) + [Label(target)];
    var n := Int32(v);
    J32Exact(Entry(i).opcode, 0, n, a, n);
    J32Exact(Entry(i).opcode, a, n, 0, n);
    SamePayload(i, Operands(0, 0, 0, n, 0), Operands(a, 0, 0, n, 0));
  }

  // ---- displacements ----

  /** A branch at `p` holding the byte distance to `q` reaches `q` exactly when it is itself at `q`. */
  lemma ByteDistanceReachesExactlyWhen(s: C.State, di: C.Decoded, q: u64)
    requires di.imm == q - s.pc
    ensures C.Target(s, di) == q <==> q == s.pc
  {
    var d := di.imm;
    var k := (s.pc + d * 4) / TWO64;
    assert s.pc + d * 4 == TWO64 * k + (s.pc + d * 4) % TWO64;
    assert -4 <= k <= 4;
    if C.Target(s, di) == q {
      assert 3 * d == TWO64 * k;
      assert k == 0 || k == 3 || k == -3;
    }
  }

  // ---- mnemonics the table lacks ----

  lemma {:induction false} NotFound(s: string, from: nat)
    requires |s| >= 2 && from <= OPCODE_COUNT
    requires var i := ByKey(Key(s)); 0 <= i < OPCODE_COUNT ==> Entry(i).mnemonic != s
    ensures FindEntry(s, from) == None
    decreases OPCODE_COUNT - from
  {
    hide Entry; hide ByKey; hide Key;
    if from < OPCODE_COUNT {
      KeyFindsEntry(from);
      NotFound(s, from + 1);
    }
  }

  /** The generator's shifts and two of its comparison branches are no instructions. */
  const UNKNOWN: set<string> := {"sll", "srl", "bge", "bgt"}

  lemma GeneratedMnemonicsMissing(name: string)
    requires name in UNKNOWN
    ensures FindEntry(ToUpper(name), 0) == None
  {
    hide Entry; hide ByKey; hide Key; hide ToUpper; hide FindEntry;
    UpperCased();
    KeysOfMissing();
    SharedKey();
    NotFound(ToUpper(name), 0);
  }

  lemma UpperCased()
    ensures ToUpper("sll") == "SLL" && ToUpper("srl") == "SRL" && ToUpper("bge") == "BGE" && ToUpper("bgt") == "BGT"
  {
  }

  lemma KeysOfMissing()
    ensures Key("SLL") == 1983 && Key("SRL") == 2079 && Key("BGE") == 1760 && Key("BGT") == 1775
    ensures ByKey(1983) == -1 && ByKey(2079) == 10 && ByKey(1760) == -1 && ByKey(1775) == -1
  {
  }

  lemma SharedKey()
    ensures Entry(10).mnemonic != "SRL"
  {
    assert Entry(10).mnemonic[0] == 'M';
  }

  /** So their lines assemble to nothing: scaled indices, shifts, and half of the branches on `<`, `<=`, `>`, `>=`. */
  lemma GeneratedLinesAreLost(st: Asm, name: string, t: AsmToken, ts: Tokens)
    requires name in UNKNOWN && !t.kind.Colon? && !t.kind.End?
    ensures Round(st, [Lexeme(Ident, name)] + ([t] + ts)) == Advance(st, SkipLine(ts))
  {
    hide FindEntry; hide ToUpper; hide AssembleInst; hide SkipLine;
    GeneratedMnemonicsMissing(name);
    var all := [Lexeme(Ident, name)] + ([t] + ts);
    assert Rest(all) == [t] + ts && Rest([t] + ts) == ts;
  }
}
