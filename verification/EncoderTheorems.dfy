/**
  Streams of encoded instructions can be read back: by opcode field always, and by the
  documented escape prefix exactly when no 4-byte instruction starts with the prefix byte.
 */
module EncoderTheorems {
  import opened Ast
  import opened Words
  import opened Encoder

  /** A table entry with operands. */
  datatype Inst = Inst(index: Index, ops: Operands)

  predicate IsReg(r: int) { 0 <= r < 32 }

  predicate IsImm15(n: int) { -0x4000 <= n < 0x4000 }

  predicate IsImm20(n: int) { -0x8_0000 <= n < 0x8_0000 }

  /** Operands in range, those the format leaves out zero, and NOP all zero. */
  predicate Canonical(x: Inst) {
    var e, o := Entry(x.index), x.ops;
    (match e.format
     case R => IsReg(o.rd) && IsReg(o.rs1) && IsReg(o.rs2) && o.imm == 0 && 0 <= o.func < 0x400
     case I => IsReg(o.rd) && IsReg(o.rs1) && o.rs2 == 0 && IsImm15(o.imm) && o.func == 0
     case RI => false
     case B => o.rd == 0 && IsReg(o.rs1) && IsReg(o.rs2) && IsImm15(o.imm) && o.func == 0
     case J => IsReg(o.rd) && o.rs1 == 0 && o.rs2 == 0 && IsImm20(o.imm) && o.func == 0)
    && (e.func >= 0 ==> o.func == e.func)
    && (x.index == 0 ==> o == Operands(0, 0, 0, 0, 0))
  }

  function Bytes(x: Inst): seq<byte>
  {
    EncodeInstruction(Instantiate(Entry(x.index), x.ops)).bytes
  }

  function Stream(xs: seq<Inst>): seq<byte>
  {
    if xs == [] then [] else Bytes(xs[0]) + Stream(xs[1..])
  }

  // ---- the table ----

  /** The entry an opcode and function code select. */
  function IndexOf(opcode: nat, func: int): Option<Index>
  {
    if opcode == 0x00 then Some(0)
    else if opcode == 0x01 then Some(1)
    else if opcode == 0x03 then Some(2)
    else if opcode == 0x04 then Some(3)
    else if opcode == 0x05 then Some(4)
    else if opcode == 0x06 then Some(5)
    else if opcode == 0x07 then Some(6)
    else if opcode == 0x0B then Some(7)
    else if opcode == 0x10
      then (if func == 0 then Some(8) else if func == 1 then Some(9) else if func == 2 then Some(10)
        else if func == 5 then Some(11) else if func == 6 then Some(12) else if func == 7 then Some(13) else None)
    else if opcode == 0x13
      then (if func == 0 then Some(14) else if func == 1 then Some(15) else if func == 2 then Some(16) else None)
    else if opcode == 0x20
      then (if func == 0 then Some(17) else if func == 1 then Some(18) else if func == 2 then Some(19) else None)
    else if opcode == 0x21 then Some(20)
    else if opcode == 0x40
      then (if func == 0 then Some(21) else if func == 1 then Some(22) else if func == 2 then Some(23)
        else if func == 3 then Some(24) else None)
    else if opcode == 0x41
      then (if func == 0 then Some(25) else if func == 1 then Some(26) else if func == 2 then Some(27) else None)
    else if opcode == 0x30
      then (if func == 0 then Some(28) else if func == 1 then Some(29) else if func == 2 then Some(30)
        else if func == 3 then Some(31) else None)
    else if opcode == 0x50 then Some(32)
    else if opcode == 0x51 then Some(33)
    else if opcode == 0x52 then Some(34)
    else if opcode == 0x53 then Some(35)
    else if opcode == 0x60 then Some(36)
    else if opcode == 0x61 then Some(37)
    else if opcode == 0x62 then Some(38)
    else if opcode == 0x63 then Some(39)
    else if opcode == 0x70 then Some(40)
    else if opcode == 0x71 then Some(41)
    else if opcode == 0x72 then Some(42)
    else if opcode == 0x73 then Some(43)
    else if opcode == 0x74 then Some(44)
    else if opcode == 0x75 then Some(45)
    else if opcode == 0x76 then Some(46)
    else if opcode == 0x77 then Some(47)
    else if opcode == 0x78 then Some(48)
    else if opcode == 0x79 then Some(49)
    else if opcode == 0x7A then Some(50)
    else if opcode == 0x7B then Some(51)
    else if opcode == 0x7C then Some(52)
    else if opcode == 0x7D then Some(53)
    else if opcode == 0x7E then Some(54)
    else if opcode == 0x7F then Some(55)
    else if opcode == 0x80 then Some(56)
    else if opcode == 0x81 then Some(57)
    else if opcode == 0x82 then Some(58)
    else if opcode == 0x83 then Some(59)
    else if opcode == 0xB4 then Some(60)
    else if opcode == 0xB6 then Some(61)
    else if opcode == 0xC0 then Some(62)
    else if opcode == 0xC1 then Some(63)
    else if opcode == 0xC2 then Some(64)
    else if opcode == 0xC3 then Some(65)
    else if opcode == 0xC4 then Some(66)
    else if opcode == 0xC5 then Some(67)
    else if opcode == 0xC6 then Some(68)
    else if opcode == 0xC8 then Some(69)
    else if opcode == 0xD0 then Some(70)
    else if opcode == 0xD1 then Some(71)
    else None
  }

  /** Opcode and function code determine the entry. */
  lemma IndexOfEntry(i: Index, func: int)
    requires (Entry(i).func >= 0 ==> func == Entry(i).func)
    ensures IndexOf(Entry(i).opcode, func) == Some(i)
  {
    hide Entry; hide IndexOf;
    if i < 12 { IndexesFrom0(i, func); }
    else if i < 24 { IndexesFrom12(i, func); }
    else if i < 36 { IndexesFrom24(i, func); }
    else if i < 48 { IndexesFrom36(i, func); }
    else if i < 60 { IndexesFrom48(i, func); }
    else { IndexesFrom60(i, func); }
  }

  lemma IndexesFrom0(i: nat, func: int)
    requires 0 <= i < 12 && (Entry(i).func >= 0 ==> func == Entry(i).func)
    ensures IndexOf(Entry(i).opcode, func) == Some(i)
  {
  }

  lemma IndexesFrom12(i: nat, func: int)
    requires 12 <= i < 24 && (Entry(i).func >= 0 ==> func == Entry(i).func)
    ensures IndexOf(Entry(i).opcode, func) == Some(i)
  {
  }

  lemma IndexesFrom24(i: nat, func: int)
    requires 24 <= i < 36 && (Entry(i).func >= 0 ==> func == Entry(i).func)
    ensures IndexOf(Entry(i).opcode, func) == Some(i)
  {
  }

  lemma IndexesFrom36(i: nat, func: int)
    requires 36 <= i < 48 && (Entry(i).func >= 0 ==> func == Entry(i).func)
    ensures IndexOf(Entry(i).opcode, func) == Some(i)
  {
  }

  lemma IndexesFrom48(i: nat, func: int)
    requires 48 <= i < 60 && (Entry(i).func >= 0 ==> func == Entry(i).func)
    ensures IndexOf(Entry(i).opcode, func) == Some(i)
  {
  }

  lemma IndexesFrom60(i: nat, func: int)
    requires 60 <= i < 72 && (Entry(i).func >= 0 ==> func == Entry(i).func)
    ensures IndexOf(Entry(i).opcode, func) == Some(i)
  {
  }

  /** Escaped are exactly the opcodes from 0x80 up; only NOP has opcode 0; function codes occur in format R. */
  predicate WellShaped(i: Index) {
    var e := Entry(i);
    (e.encoding.Escape32? <==> 0x80 <= e.opcode) && e.opcode < 0x100 && (e.opcode == 0 ==> i == 0)
    && -1 <= e.func < 0x400 && (e.func >= 0 ==> e.format.R?) && !e.format.RI?
  }

  lemma EntryShape(i: Index)
    ensures WellShaped(i)
  {
    hide Entry; hide WellShaped;
    if i < 24 { ShapesFrom0(i); } else if i < 48 { ShapesFrom24(i); } else { ShapesFrom48(i); }
  }

  lemma ShapesFrom0(i: nat)
    requires 0 <= i < 24
    ensures WellShaped(i)
  {
  }

  lemma ShapesFrom24(i: nat)
    requires 24 <= i < 48
    ensures WellShaped(i)
  {
  }

  lemma ShapesFrom48(i: nat)
    requires 48 <= i < 72
    ensures WellShaped(i)
  {
  }

  // ---- fields of a word ----

  function Signed(v: nat, half: nat): int { if v < half then v else v - 2 * half }

  function OpcodeField(w: nat): nat { w / 0x200_0000 }

  /** The operands a format reads from a word. */
  function DecodeOperands(f: InstFormat, w: nat): Operands {
    var a, b, c := w / 0x10_0000 % 32, w / 0x8000 % 32, w / 0x400 % 32;
    match f
    case R => Operands(a, b, c, 0, w % 0x400)
    case I => Operands(a, b, 0, Signed(w % 0x8000, 0x4000), 0)
    case RI => Operands(a, b, c, Signed(w % 0x400, 0x200), 0)
    case B => Operands(0, a, b, Signed(w % 0x8000, 0x4000), 0)
    case J => Operands(a, 0, 0, Signed(w % 0x10_0000, 0x8_0000), 0)
  }

  lemma Pow2Values()
    ensures Pow2(10) == 0x400 && Pow2(15) == 0x8000 && Pow2(20) == 0x10_0000 && Pow2(25) == 0x200_0000
  {
    Pow2Add(5, 5);
    Pow2Add(10, 5);
    Pow2Add(15, 5);
    Pow2Add(20, 5);
    assert Pow2(5) == 32;
  }

  lemma {:induction false} Pow2Add(a: nat, b: nat)
    ensures Pow2(a + b) == Pow2(a) * Pow2(b)
    decreases b
  {
    if b > 0 {
      Pow2Add(a, b - 1);
      assert Pow2(a + b) == 2 * (Pow2(a) * Pow2(b - 1));
    }
  }

  /** The opcode's low seven bits reach the word. */
  lemma OpcodeBits(opcode: nat)
    ensures OpcodeTop(opcode) == opcode % 0x80 * 0x200_0000
  {
    var q, r := opcode / 0x80, opcode % 0x80;
    assert opcode * 0x200_0000 == q * TWO32 + r * 0x200_0000;
  }

  lemma OrField(a: nat, unit: nat, b: nat, k: nat)
    requires unit == Pow2(k) && b < unit
    ensures BitOr(a * unit, b) == a * unit + b
  {
    OrIntoClearBits(a, b, k);
  }

  /** A word as the nest of its fields, from the top. */
  function Join(high: nat, unit: nat, low: nat): nat { high * unit + low }

  lemma Split(high: nat, unit: nat, low: nat)
    requires low < unit
    ensures Join(high, unit, low) / unit == high && Join(high, unit, low) % unit == low
  {
    DivMod(Join(high, unit, low), unit, high, low);
  }

  lemma Regroup(high: nat, u: nat, mid: nat, v: nat, low: nat)
    ensures Join(Join(high, u, mid), v, low) == Join(high, u * v, Join(mid, v, low))
  {
  }

  lemma SmallByte(n: int)
    requires 0 <= n < 256
    ensures ByteOf(n) == n
  {
  }

  lemma WordWithOneRegister(opcode: nat, top: nat, rd: nat)
    requires top == opcode % 0x80 && rd < 32
    ensures BitOr(OpcodeTop(opcode), ByteOf(rd) * 0x10_0000) == Join(top, 32, rd) * 0x10_0000
  {
    hide BitOr; hide OpcodeTop; hide ByteOf; hide Pow2;
    Pow2Values();
    OpcodeBits(opcode);
    SmallByte(rd);
    OrField(top, 0x200_0000, rd * 0x10_0000, 25);
  }

  lemma WordWithTwoRegisters(opcode: nat, top: nat, rd: nat, rs1: nat)
    requires top == opcode % 0x80 && rd < 32 && rs1 < 32
    ensures BitOr(BitOr(OpcodeTop(opcode), ByteOf(rd) * 0x10_0000), ByteOf(rs1) * 0x8000) ==
            Join(Join(top, 32, rd), 32, rs1) * 0x8000
  {
    hide BitOr; hide OpcodeTop; hide ByteOf; hide Pow2;
    Pow2Values();
    WordWithOneRegister(opcode, top, rd);
    SmallByte(rs1);
    OrField(Join(top, 32, rd), 0x10_0000, rs1 * 0x8000, 20);
  }

  lemma RWord(opcode: nat, top: nat, rd: nat, rs1: nat, rs2: nat, func: nat)
    requires top == opcode % 0x80 && rd < 32 && rs1 < 32 && rs2 < 32 && func < 0x400
    ensures EncodeR32(opcode, rd, rs1, rs2, func) == Join(Join(Join(Join(top, 32, rd), 32, rs1), 32, rs2), 0x400, func)
  {
    hide BitOr; hide OpcodeTop; hide ByteOf; hide Join;
    WordWithTwoRegisters(opcode, top, rd, rs1);
    SmallByte(rs2);
    SmallFunc(func);
    ThirdRegister(Join(Join(top, 32, rd), 32, rs1), rs2, func);
  }

  lemma SmallFunc(func: nat)
    requires func < 0x400
    ensures func % 0x400 == func
  {
  }

  lemma ThirdRegister(two: nat, rs2: nat, func: nat)
    requires rs2 < 32 && func < 0x400
    ensures BitOr(BitOr(two * 0x8000, rs2 * 0x400), func) == Join(Join(two, 32, rs2), 0x400, func)
  {
    hide BitOr; hide Pow2;
    Pow2Values();
    OrField(two, 0x8000, rs2 * 0x400, 15);
    OrField(Join(two, 32, rs2), 0x400, func, 10);
  }

  lemma IWord(opcode: nat, top: nat, rd: nat, rs1: nat, imm: int, low: nat)
    requires top == opcode % 0x80 && low == imm % 0x8000 && rd < 32 && rs1 < 32
    ensures EncodeI32(opcode, rd, rs1, imm) == Join(Join(Join(top, 32, rd), 32, rs1), 0x8000, low)
  {
    hide BitOr; hide Pow2; hide OpcodeTop; hide ByteOf;
    Pow2Values();
    WordWithTwoRegisters(opcode, top, rd, rs1);
    OrField(Join(Join(top, 32, rd), 32, rs1), 0x8000, low, 15);
  }

  lemma JWord(opcode: nat, top: nat, rd: nat, imm: int, low: nat)
    requires top == opcode % 0x80 && low == imm % 0x10_0000 && rd < 32
    ensures EncodeJ32(opcode, rd, imm) == Join(Join(top, 32, rd), 0x10_0000, low)
  {
    hide BitOr; hide Pow2; hide OpcodeTop; hide ByteOf;
    Pow2Values();
    WordWithOneRegister(opcode, top, rd);
    OrField(Join(top, 32, rd), 0x10_0000, low, 20);
  }

  function InstructionOf(x: Inst): Instruction
  {
    Instantiate(Entry(x.index), x.ops)
  }

  /** The operands and the opcode's low seven bits are read back from the word. */
  lemma FieldsRoundTrip(x: Inst)
    requires Canonical(x)
    ensures var w := Payload(InstructionOf(x));
      w < TWO32 && OpcodeField(w) == Entry(x.index).opcode % 0x80 && DecodeOperands(Entry(x.index).format, w) == x.ops
  {
    hide Entry;
    EntryShape(x.index);
    var o, op := x.ops, Entry(x.index).opcode;
    assert InstructionOf(x).operands == o;
    match Entry(x.index).format
    case R => RFields(op, o);
    case I => IFields(op, o.rd, o.rs1, o.imm);
    case B => IFields(op, o.rs1, o.rs2, o.imm);
    case J => JFields(op, o.rd, o.imm);
  }

  lemma TopFields(w: nat, t: nat, a: nat, low: nat)
    requires w == Join(Join(t, 32, a), 0x10_0000, low) && a < 32 && t < 0x80 && low < 0x10_0000
    ensures w < TWO32 && OpcodeField(w) == t && w / 0x10_0000 % 32 == a
  {
    Split(Join(t, 32, a), 0x10_0000, low);
    Split(t, 32, a);
    Regroup(t, 32, a, 0x10_0000, low);
    Split(t, 0x200_0000, Join(a, 0x10_0000, low));
  }

  lemma RFields(op: nat, o: Operands)
    requires IsReg(o.rd) && IsReg(o.rs1) && IsReg(o.rs2) && 0 <= o.func < 0x400
    ensures var w := EncodeR32(op, o.rd, o.rs1, o.rs2, o.func);
      w < TWO32 && OpcodeField(w) == op % 0x80 && w / 0x10_0000 % 32 == o.rd && w / 0x8000 % 32 == o.rs1
      && w / 0x400 % 32 == o.rs2 && w % 0x400 == o.func
  {
    hide EncodeR32; hide OpcodeField;
    RWord(op, op % 0x80, o.rd, o.rs1, o.rs2, o.func);
    var one := Join(op % 0x80, 32, o.rd);
    var two := Join(one, 32, o.rs1);
    var low2 := Join(o.rs2, 0x400, o.func);
    var low1 := Join(o.rs1, 0x8000, low2);
    Regroup(two, 32, o.rs2, 0x400, o.func);
    Regroup(one, 32, o.rs1, 0x8000, low2);
    Split(Join(two, 32, o.rs2), 0x400, o.func);
    Split(two, 32, o.rs2);
    Split(two, 0x8000, low2);
    Split(one, 32, o.rs1);
    TopFields(Join(one, 0x10_0000, low1), op % 0x80, o.rd, low1);
  }

  lemma SignedLow15(imm: int)
    requires IsImm15(imm)
    ensures Signed(imm % 0x8000, 0x4000) == imm
  {
  }

  lemma SignedLow20(imm: int)
    requires IsImm20(imm)
    ensures Signed(imm % 0x10_0000, 0x8_0000) == imm
  {
  }

  /** A word of two registers and a low part of 15 bits. */
  lemma TwoRegisterFields(top: nat, a: nat, b: nat, low: nat)
    requires top < 0x80 && a < 32 && b < 32 && low < 0x8000
    ensures var w := Join(Join(Join(top, 32, a), 32, b), 0x8000, low);
      w < TWO32 && OpcodeField(w) == top && w / 0x10_0000 % 32 == a && w / 0x8000 % 32 == b && w % 0x8000 == low
  {
    hide OpcodeField;
    var one := Join(top, 32, a);
    var two := Join(one, 32, b);
    Split(two, 0x8000, low);
    Split(one, 32, b);
    Regroup(one, 32, b, 0x8000, low);
    TopFields(Join(two, 0x8000, low), top, a, Join(b, 0x8000, low));
  }

  lemma IFields(op: nat, a: int, b: int, imm: int)
    requires IsReg(a) && IsReg(b) && IsImm15(imm)
    ensures var w := EncodeI32(op, a, b, imm);
      w < TWO32 && OpcodeField(w) == op % 0x80 && w / 0x10_0000 % 32 == a && w / 0x8000 % 32 == b
      && Signed(w % 0x8000, 0x4000) == imm
  {
    hide EncodeI32; hide OpcodeField; hide Join; hide Signed;
    IWord(op, op % 0x80, a, b, imm, imm % 0x8000);
    SignedLow15(imm);
    TwoRegisterFields(op % 0x80, a, b, imm % 0x8000);
  }

  lemma JFields(op: nat, a: int, imm: int)
    requires IsReg(a) && IsImm20(imm)
    ensures var w := EncodeJ32(op, a, imm);
      w < TWO32 && OpcodeField(w) == op % 0x80 && w / 0x10_0000 % 32 == a && Signed(w % 0x10_0000, 0x8_0000) == imm
  {
    hide EncodeJ32; hide OpcodeField; hide Join; hide Signed;
    JWord(op, op % 0x80, a, imm, imm % 0x10_0000);
    SignedLow20(imm);
    var one := Join(op % 0x80, 32, a);
    Split(one, 0x10_0000, imm % 0x10_0000);
    TopFields(Join(one, 0x10_0000, imm % 0x10_0000), op % 0x80, a, imm % 0x10_0000);
  }

  // ---- decoding a stream ----

  datatype Decoded = Decoded(inst: Inst, rest: seq<byte>)

  /** The table entry for an opcode and a word, with the operands the word holds. */
  function Select(opcode: nat, w: nat, encoding: EncodingType): (r: Option<Inst>)
    ensures r.Some? ==> Entry(r.value.index).encoding == encoding
  {
    var i := IndexOf(opcode, w % 0x400);
    if i.Some? && Entry(i.value).encoding == encoding then Some(Inst(i.value, DecodeOperands(Entry(i.value).format, w)))
    else None
  }

  function Word(b: seq<byte>): nat
    requires |b| >= 4
  {
    FromLe(b[..4])
  }

  function DecodeBase(b: seq<byte>): (r: Option<Decoded>)
    requires |b| >= 4
    ensures r.Some? ==> |r.value.rest| < |b|
    ensures r.Some? ==> Entry(r.value.inst.index).encoding.Base32?
  {
    var x := Select(OpcodeField(Word(b)), Word(b), Base32);
    if x.Some? then Some(Decoded(x.value, b[4..])) else None
  }

  /** The escaped layout: prefix, ULEB128 opcode within the first four bytes, then the payload word. */
  function DecodeEscape(b: seq<byte>): (r: Option<Decoded>)
    requires |b| >= 4
    ensures r.Some? ==> |r.value.rest| < |b|
    ensures r.Some? ==> Entry(r.value.inst.index).encoding.Escape32?
  {
    var u := DecodeUleb128(b[1..4]);
    if |b| < 8 || u.None? then None
    else
      var x := Select(u.value.value, Word(b[4..]), Escape32);
      if x.Some? then Some(Decoded(x.value, b[8..])) else None
  }

  /** How a decoder tells an escaped instruction: by the first byte, as documented, or by the opcode field. */
  datatype Rule = ByPrefix | ByField

  predicate Escaped(rule: Rule, b: seq<byte>)
    requires |b| >= 4
  {
    match rule
    case ByPrefix => b[0] == 0xFE
    case ByField => OpcodeField(Word(b)) == 0 && Word(b) != 0
  }

  function DecodeStream(rule: Rule, b: seq<byte>): Option<seq<Inst>>
    decreases |b|
  {
    if b == [] then Some([])
    else if |b| < 4 then None
    else
      var first := if Escaped(rule, b) then DecodeEscape(b) else DecodeBase(b);
      if first.None? then None
      else
        var more := DecodeStream(rule, first.value.rest);
        if more.None? then None else Some([first.value.inst] + more.value)
  }

  predicate IsBase(x: Inst)
  {
    Entry(x.index).encoding.Base32?
  }

  /** The operand in the low bits of the word. */
  function LowOperand(x: Inst): int
  {
    if Entry(x.index).format.R? then x.ops.func else x.ops.imm
  }

  lemma WordOfBytes(n: nat, rest: seq<byte>)
    requires n < TWO32
    ensures Word(Le(n, 4) + rest) == n
  {
    Pow256Values();
    FromLeOfLe(n, 4);
    assert (Le(n, 4) + rest)[..4] == Le(n, 4);
  }

  lemma SelectFound(x: Inst)
    requires Canonical(x)
    ensures Select(Entry(x.index).opcode, Payload(InstructionOf(x)), Entry(x.index).encoding) == Some(x)
  {
    var w := Payload(InstructionOf(x));
    FieldsRoundTrip(x);
    EntryShape(x.index);
    hide Entry; hide IndexOf;
    IndexOfEntry(x.index, w % 0x400);
  }

  lemma BaseDecodes(x: Inst, rest: seq<byte>)
    requires Canonical(x) && IsBase(x)
    ensures DecodeBase(Bytes(x) + rest) == Some(Decoded(x, rest))
    ensures !Escaped(ByField, Bytes(x) + rest)
    ensures Escaped(ByPrefix, Bytes(x) + rest) <==> LowOperand(x) % 256 == 0xFE
    ensures |Bytes(x)| == 4
  {
    hide Entry; hide IndexOf; hide Payload; hide Select; hide DecodeOperands; hide LowOperand;
    var w := Payload(InstructionOf(x));
    EntryShape(x.index);
    FieldsRoundTrip(x);
    SelectFound(x);
    WordOfBytes(w, rest);
    assert (Le(w, 4) + rest)[4..] == rest;
    assert Le(w, 4)[0] == w % 256;
    LowByte(x);
    if Entry(x.index).opcode == 0 { NopIsZero(x); }
  }

  lemma NopIsZero(x: Inst)
    requires Canonical(x) && x.index == 0
    ensures Payload(InstructionOf(x)) == 0
  {
    RWord(0, 0, 0, 0, 0, 0);
  }

  lemma RLow(op: nat, o: Operands)
    requires IsReg(o.rd) && IsReg(o.rs1) && IsReg(o.rs2) && 0 <= o.func < 0x400
    ensures EncodeR32(op, o.rd, o.rs1, o.rs2, o.func) % 256 == o.func % 256
  {
    hide EncodeR32; hide Join;
    RWord(op, op % 0x80, o.rd, o.rs1, o.rs2, o.func);
    JoinLow(Join(Join(Join(op % 0x80, 32, o.rd), 32, o.rs1), 32, o.rs2), 4, o.func);
  }

  lemma ILow(op: nat, a: int, b: int, imm: int)
    requires IsReg(a) && IsReg(b)
    ensures EncodeI32(op, a, b, imm) % 256 == imm % 256
  {
    hide EncodeI32; hide Join;
    IWord(op, op % 0x80, a, b, imm, imm % 0x8000);
    JoinLow(Join(Join(op % 0x80, 32, a), 32, b), 0x80, imm % 0x8000);
    LowOfLow(imm);
  }

  lemma JLow(op: nat, a: int, imm: int)
    requires IsReg(a)
    ensures EncodeJ32(op, a, imm) % 256 == imm % 256
  {
    hide EncodeJ32; hide Join;
    JWord(op, op % 0x80, a, imm, imm % 0x10_0000);
    JoinLow(Join(op % 0x80, 32, a), 0x1000, imm % 0x10_0000);
    LowOfLow(imm);
  }

  lemma LowOfLow(imm: int)
    ensures imm % 0x8000 % 256 == imm % 256 && imm % 0x10_0000 % 256 == imm % 256
  {
    var m, n := imm / 0x8000, imm / 0x10_0000;
    assert imm % 0x8000 == imm - 256 * (0x80 * m) && imm % 0x10_0000 == imm - 256 * (0x1000 * n);
    ModShift(imm, 256, 0x80 * m);
    ModShift(imm, 256, 0x1000 * n);
  }

  lemma LowByte(x: Inst)
    requires Canonical(x)
    ensures Payload(InstructionOf(x)) % 256 == LowOperand(x) % 256
  {
    hide Entry; hide EncodeR32; hide EncodeI32; hide EncodeJ32;
    var o, op := x.ops, Entry(x.index).opcode;
    assert InstructionOf(x).operands == o;
    match Entry(x.index).format
    case R => RLow(op, o);
    case I => ILow(op, o.rd, o.rs1, o.imm);
    case B => ILow(op, o.rs1, o.rs2, o.imm);
    case J => JLow(op, o.rd, o.imm);
  }

  /** The low byte of a word is the low byte of its low field. */
  lemma JoinLow(high: nat, unit: nat, low: nat)
    ensures Join(high, unit * 256, low) % 256 == low % 256
  {
    var k := high * unit;
    assert Join(high, unit * 256, low) == k * 256 + low;
  }

  lemma EscapeHeader(opcode: nat)
    requires 0x80 <= opcode < 0x100
    ensures [] + [0xFE] + Uleb128(opcode) + Padding(1) == [0xFE, opcode % 0x80 + 0x80, 1, 0]
  {
    assert Uleb128(opcode) == [opcode % 0x80 + 0x80] + Uleb128(opcode / 0x80);
    assert Padding(1) == [0] + Padding(0);
  }

  lemma EscapeDecodes(x: Inst, rest: seq<byte>)
    requires Canonical(x) && !IsBase(x)
    ensures DecodeEscape(Bytes(x) + rest) == Some(Decoded(x, rest))
    ensures Escaped(ByField, Bytes(x) + rest) && Escaped(ByPrefix, Bytes(x) + rest)
    ensures |Bytes(x)| == 8
  {
    hide Entry; hide IndexOf;
    var w, op := Payload(InstructionOf(x)), Entry(x.index).opcode;
    EntryShape(x.index);
    FieldsRoundTrip(x);
    SelectFound(x);
    EscapeHeader(op);
    var head: seq<byte> := [0xFE, op % 0x80 + 0x80, 1, 0];
    assert Bytes(x) == head + Le(w, 4);
    var b := Bytes(x) + rest;
    assert b == head + (Le(w, 4) + rest);
    WordOfBytes(w, rest);
    assert b[4..] == Le(w, 4) + rest && b[8..] == rest;
    HeaderReads(head, op, b);
  }

  lemma HeaderReads(head: seq<byte>, op: nat, b: seq<byte>)
    requires 0x80 <= op < 0x100 && head == [0xFE, op % 0x80 + 0x80, 1, 0] && head <= b
    ensures DecodeUleb128(b[1..4]) == Some(Uleb(op, [0]))
    ensures Word(b) == 0xFE + 256 * (op % 0x80 + 0x80) + 0x1_0000 && OpcodeField(Word(b)) == 0
  {
    assert b[1..4] == Uleb128(op) + [0] by {
      assert Uleb128(op) == [op % 0x80 + 0x80] + Uleb128(op / 0x80);
    }
    Uleb128RoundTrip(op, [0]);
    assert b[..4] == head;
    assert head[1..] == [op % 0x80 + 0x80, 1, 0] && head[1..][1..] == [1, 0] && head[1..][1..][1..] == [0];
    assert FromLe([0]) == 0 by { assert [0][1..] == []; }
    assert FromLe(head[1..][1..]) == 1;
    assert FromLe(head[1..]) == op % 0x80 + 0x80 + 256 * 1;
  }

  // ---- the theorems ----

  lemma StreamStep(rule: Rule, b: seq<byte>, x: Inst, rest: seq<byte>)
    requires |b| >= 4 && (if Escaped(rule, b) then DecodeEscape(b) else DecodeBase(b)) == Some(Decoded(x, rest))
    ensures var more := DecodeStream(rule, rest);
      DecodeStream(rule, b) == if more.None? then None else Some([x] + more.value)
  {
    hide Entry; hide Escaped; hide DecodeEscape; hide DecodeBase;
  }

  /** A 4-byte instruction that starts with the prefix byte is read as an escaped one, or not at all. */
  lemma PrefixMisreads(b: seq<byte>, x: Inst, xs: seq<Inst>)
    requires |b| >= 4 && Escaped(ByPrefix, b) && IsBase(x)
    ensures DecodeStream(ByPrefix, b) != Some([x] + xs)
  {
    hide Entry; hide Escaped;
    var d := DecodeStream(ByPrefix, b);
    if d.Some? { assert !IsBase(d.value[0]); }
  }

  /** Reading by the opcode field recovers every canonical instruction list. */
  lemma {:induction false} StreamDecodes(xs: seq<Inst>)
    requires forall x | x in xs :: Canonical(x)
    ensures DecodeStream(ByField, Stream(xs)) == Some(xs)
  {
    hide Entry; hide IndexOf; hide Canonical; hide Bytes; hide DecodeBase; hide DecodeEscape; hide Escaped;
    hide LowOperand; hide IsBase;
    if xs != [] {
      var x, rest := xs[0], Stream(xs[1..]);
      if IsBase(x) { BaseDecodes(x, rest); } else { EscapeDecodes(x, rest); }
      StreamStep(ByField, Bytes(x) + rest, x, rest);
      StreamDecodes(xs[1..]);
      assert [x] + xs[1..] == xs;
    }
  }

  /** Two different canonical lists never encode to the same bytes. */
  lemma StreamsAreUnique(xs: seq<Inst>, ys: seq<Inst>)
    requires (forall x | x in xs :: Canonical(x)) && (forall y | y in ys :: Canonical(y))
    requires Stream(xs) == Stream(ys)
    ensures xs == ys
  {
    StreamDecodes(xs);
    StreamDecodes(ys);
  }

  /** No 4-byte instruction has the escape prefix as its low byte. */
  predicate AvoidsPrefix(xs: seq<Inst>)
  {
    forall x | x in xs :: IsBase(x) ==> LowOperand(x) % 256 != 0xFE
  }

  lemma SameTail(x: Inst, more: Option<seq<Inst>>, xs: seq<Inst>)
    requires xs != [] && xs[0] == x
    ensures (if more.None? then None else Some([x] + more.value)) == Some(xs) <==> more == Some(xs[1..])
  {
    if more.Some? && [x] + more.value == xs { assert more.value == xs[1..]; }
    assert [x] + xs[1..] == xs;
  }

  /**
    The documented decoder recovers a canonical list exactly when no 4-byte instruction starts with the
    prefix byte.
   */
  lemma {:induction false} PrefixDecoderExact(xs: seq<Inst>)
    requires forall x | x in xs :: Canonical(x)
    ensures DecodeStream(ByPrefix, Stream(xs)) == Some(xs) <==> AvoidsPrefix(xs)
  {
    hide Entry; hide IndexOf; hide Canonical; hide Bytes; hide DecodeBase; hide DecodeEscape; hide Escaped;
    hide LowOperand; hide IsBase;
    if xs != [] {
      var x, rest := xs[0], Stream(xs[1..]);
      if IsBase(x) { BaseDecodes(x, rest); } else { EscapeDecodes(x, rest); }
      PrefixDecoderExact(xs[1..]);
      assert [x] + xs[1..] == xs;
      assert AvoidsPrefix(xs) <==> (IsBase(x) ==> LowOperand(x) % 256 != 0xFE) && AvoidsPrefix(xs[1..]);
      if IsBase(x) && LowOperand(x) % 256 == 0xFE {
        PrefixMisreads(Bytes(x) + rest, x, xs[1..]);
      } else {
        StreamStep(ByPrefix, Bytes(x) + rest, x, rest);
        SameTail(x, DecodeStream(ByPrefix, rest), xs);
      }
    }
  }
}
