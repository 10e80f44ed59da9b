/**
  Instruction encoding: 4-byte base words and 8-byte escaped ones.
 */
module Encoder {
  import opened Ast
  import opened Words

  datatype InstFormat = R | I | RI | B | J

  datatype EncodingType = Base32 | Escape32

  datatype Operands = Operands(rd: int, rs1: int, rs2: int, imm: int, func: int)

  datatype OpcodeEntry = OpcodeEntry(mnemonic: string, opcode: nat, encoding: EncodingType, format: InstFormat,
      func: int)

  const OPCODE_COUNT: nat := 72

  type Index = i: nat | i < OPCODE_COUNT

  /** The opcode table. */
  function Entry(i: Index): OpcodeEntry {
    if i == 0 then OpcodeEntry("NOP", 0x00, Base32, R, -1)
    else if i == 1 then OpcodeEntry("MOV", 0x01, Base32, R, -1)
    else if i == 2 then OpcodeEntry("MOVZ", 0x03, Base32, I, -1)
    else if i == 3 then OpcodeEntry("LUI", 0x04, Base32, I, -1)
    else if i == 4 then OpcodeEntry("ADDI", 0x05, Base32, I, -1)
    else if i == 5 then OpcodeEntry("RETAIN", 0x06, Base32, R, -1)
    else if i == 6 then OpcodeEntry("RELEASE", 0x07, Base32, R, -1)
    else if i == 7 then OpcodeEntry("ICACHE.RNG", 0x0B, Base32, R, -1)
    else if i == 8 then OpcodeEntry("ADD", 0x10, Base32, R, 0)
    else if i == 9 then OpcodeEntry("SUB", 0x10, Base32, R, 1)
    else if i == 10 then OpcodeEntry("MUL", 0x10, Base32, R, 2)
    else if i == 11 then OpcodeEntry("DIV", 0x10, Base32, R, 5)
    else if i == 12 then OpcodeEntry("DIVU", 0x10, Base32, R, 6)
    else if i == 13 then OpcodeEntry("REM", 0x10, Base32, R, 7)
    else if i == 14 then OpcodeEntry("SHL", 0x13, Base32, R, 0)
    else if i == 15 then OpcodeEntry("SHR", 0x13, Base32, R, 1)
    else if i == 16 then OpcodeEntry("SAR", 0x13, Base32, R, 2)
    else if i == 17 then OpcodeEntry("AND", 0x20, Base32, R, 0)
    else if i == 18 then OpcodeEntry("OR", 0x20, Base32, R, 1)
    else if i == 19 then OpcodeEntry("XOR", 0x20, Base32, R, 2)
    else if i == 20 then OpcodeEntry("NOT", 0x21, Base32, R, -1)
    else if i == 21 then OpcodeEntry("CMPEQ", 0x40, Base32, R, 0)
    else if i == 22 then OpcodeEntry("CMPNE", 0x40, Base32, R, 1)
    else if i == 23 then OpcodeEntry("CMPLT", 0x40, Base32, R, 2)
    else if i == 24 then OpcodeEntry("CMPLE", 0x40, Base32, R, 3)
    else if i == 25 then OpcodeEntry("FCMPEQ", 0x41, Base32, R, 0)
    else if i == 26 then OpcodeEntry("FCMPLT", 0x41, Base32, R, 1)
    else if i == 27 then OpcodeEntry("FCMPLE", 0x41, Base32, R, 2)
    else if i == 28 then OpcodeEntry("FADD", 0x30, Base32, R, 0)
    else if i == 29 then OpcodeEntry("FSUB", 0x30, Base32, R, 1)
    else if i == 30 then OpcodeEntry("FMUL", 0x30, Base32, R, 2)
    else if i == 31 then OpcodeEntry("FDIV", 0x30, Base32, R, 3)
    else if i == 32 then OpcodeEntry("BEQ", 0x50, Base32, B, -1)
    else if i == 33 then OpcodeEntry("BNE", 0x51, Base32, B, -1)
    else if i == 34 then OpcodeEntry("BLT", 0x52, Base32, B, -1)
    else if i == 35 then OpcodeEntry("BLE", 0x53, Base32, B, -1)
    else if i == 36 then OpcodeEntry("JMP", 0x60, Base32, J, -1)
    else if i == 37 then OpcodeEntry("JAL", 0x61, Base32, J, -1)
    else if i == 38 then OpcodeEntry("JALR", 0x62, Base32, I, -1)
    else if i == 39 then OpcodeEntry("RET", 0x63, Base32, R, -1)
    else if i == 40 then OpcodeEntry("LD.B", 0x70, Base32, I, -1)
    else if i == 41 then OpcodeEntry("LD.BU", 0x71, Base32, I, -1)
    else if i == 42 then OpcodeEntry("LD.H", 0x72, Base32, I, -1)
    else if i == 43 then OpcodeEntry("LD.HU", 0x73, Base32, I, -1)
    else if i == 44 then OpcodeEntry("LD.W", 0x74, Base32, I, -1)
    else if i == 45 then OpcodeEntry("LD.WU", 0x75, Base32, I, -1)
    else if i == 46 then OpcodeEntry("LD.D", 0x76, Base32, I, -1)
    else if i == 47 then OpcodeEntry("LD.P", 0x77, Base32, R, -1)
    else if i == 48 then OpcodeEntry("ST.B", 0x78, Base32, I, -1)
    else if i == 49 then OpcodeEntry("ST.H", 0x79, Base32, I, -1)
    else if i == 50 then OpcodeEntry("ST.W", 0x7A, Base32, I, -1)
    else if i == 51 then OpcodeEntry("ST.D", 0x7B, Base32, I, -1)
    else if i == 52 then OpcodeEntry("ST.P", 0x7C, Base32, R, -1)
    else if i == 53 then OpcodeEntry("LDA", 0x7D, Base32, I, -1)
    else if i == 54 then OpcodeEntry("PUSH", 0x7E, Base32, R, -1)
    else if i == 55 then OpcodeEntry("POP", 0x7F, Base32, R, -1)
    else if i == 56 then OpcodeEntry("ENTER", 0x80, Escape32, I, -1)
    else if i == 57 then OpcodeEntry("LEAVE", 0x81, Escape32, R, -1)
    else if i == 58 then OpcodeEntry("ADJSP", 0x82, Escape32, I, -1)
    else if i == 59 then OpcodeEntry("FRAME", 0x83, Escape32, I, -1)
    else if i == 60 then OpcodeEntry("CALL", 0xB4, Escape32, J, -1)
    else if i == 61 then OpcodeEntry("TAILCALL", 0xB6, Escape32, J, -1)
    else if i == 62 then OpcodeEntry("SYSCALL", 0xC0, Escape32, I, -1)
    else if i == 63 then OpcodeEntry("BREAK", 0xC1, Escape32, R, -1)
    else if i == 64 then OpcodeEntry("ECALL", 0xC2, Escape32, R, -1)
    else if i == 65 then OpcodeEntry("TRAPRET", 0xC3, Escape32, R, -1)
    else if i == 66 then OpcodeEntry("LR.D", 0xC4, Escape32, R, -1)
    else if i == 67 then OpcodeEntry("SC.D", 0xC5, Escape32, R, -1)
    else if i == 68 then OpcodeEntry("CSRRW", 0xC6, Escape32, I, -1)
    else if i == 69 then OpcodeEntry("SFENCE.VMA", 0xC8, Escape32, R, -1)
    else if i == 70 then OpcodeEntry("LOOP.SET", 0xD0, Escape32, I, -1)
    else OpcodeEntry("LOOP.DECBR", 0xD1, Escape32, B, -1)
  }

  datatype Instruction = Instruction(opcode: nat, encoding: EncodingType, format: InstFormat, operands: Operands)

  datatype EncodedInst = EncodedInst(bytes: seq<byte>, isEscape32: bool)

  // ---- words ----

  /** Bitwise or. */
  function BitOr(a: nat, b: nat): nat
    decreases a
  {
    if a == 0 then b
    else 2 * BitOr(a / 2, b / 2) + (if a % 2 == 1 || b % 2 == 1 then 1 else 0)
  }

  function Pow2(k: nat): (p: nat)
    ensures p >= 1
  {
    if k == 0 then 1 else 2 * Pow2(k - 1)
  }

  /** One bit of the left operand is clear. */
  lemma OrStep(x: nat, b: nat)
    requires x > 0
    ensures BitOr(2 * x, b) == 2 * BitOr(x, b / 2) + b % 2
  {
    assert (2 * x) / 2 == x && (2 * x) % 2 == 0;
  }

  lemma TimesPow(a: nat, k: nat)
    requires k > 0
    ensures a * Pow2(k) == 2 * (a * Pow2(k - 1)) && (a > 0 ==> a * Pow2(k - 1) > 0)
  {
    assert a * (2 * Pow2(k - 1)) == 2 * (a * Pow2(k - 1));
    if a > 0 { assert a * Pow2(k - 1) >= Pow2(k - 1); }
  }

  /** Or-ing a value into bits that are clear adds it. */
  lemma {:induction false} OrIntoClearBits(a: nat, b: nat, k: nat)
    requires b < Pow2(k)
    ensures BitOr(a * Pow2(k), b) == a * Pow2(k) + b
    decreases k
  {
    hide BitOr;
    if k == 0 {
      OrZero(a);
    } else if a == 0 {
      OrNothing(b);
    } else {
      var x := a * Pow2(k - 1);
      TimesPow(a, k);
      OrIntoClearBits(a, b / 2, k - 1);
      OrStep(x, b);
    }
  }

  lemma OrNothing(b: nat)
    ensures BitOr(0, b) == b
  {
  }

  lemma {:induction false} OrZero(a: nat)
    ensures BitOr(a, 0) == a
  {
    if a > 0 { OrZero(a / 2); }
  }

  /** The opcode shifted to the top seven bits; higher ones drop out. */
  function OpcodeTop(opcode: nat): nat { opcode * 0x200_0000 % TWO32 }

  function ByteOf(n: int): nat { n % 256 }

  /** opcode[7] rd[5] rs1[5] rs2[5] func[10]; registers arrive as unmasked bytes. */
  function EncodeR32(opcode: nat, rd: int, rs1: int, rs2: int, func: int): nat {
    BitOr(BitOr(BitOr(BitOr(OpcodeTop(opcode), ByteOf(rd) * 0x10_0000), ByteOf(rs1) * 0x8000), ByteOf(rs2) * 0x400),
          func % 0x400)
  }

  /** opcode[7] rd[5] rs1[5] imm[15]. */
  function EncodeI32(opcode: nat, rd: int, rs1: int, imm: int): nat {
    BitOr(BitOr(BitOr(OpcodeTop(opcode), ByteOf(rd) * 0x10_0000), ByteOf(rs1) * 0x8000), imm % 0x8000)
  }

  /** opcode[7] rs1[5] rs2[5] imm[15]. */
  function EncodeB32(opcode: nat, rs1: int, rs2: int, imm: int): nat {
    EncodeI32(opcode, rs1, rs2, imm)
  }

  /** opcode[7] rd[5] imm[20]. */
  function EncodeJ32(opcode: nat, rd: int, imm: int): nat {
    BitOr(BitOr(OpcodeTop(opcode), ByteOf(rd) * 0x10_0000), imm % 0x10_0000)
  }

  function Payload(inst: Instruction): nat {
    var o := inst.operands;
    match inst.format
    case R => EncodeR32(inst.opcode, o.rd, o.rs1, o.rs2, o.func)
    case I => EncodeI32(inst.opcode, o.rd, o.rs1, o.imm)
    case RI => EncodeR32(inst.opcode, o.rd, o.rs1, o.rs2, o.imm)
    case B => EncodeB32(inst.opcode, o.rs1, o.rs2, o.imm)
    case J => EncodeJ32(inst.opcode, o.rd, o.imm)
  }

  // ---- byte sequences ----

  /** ULEB128: seven bits a byte, low bits first, the top bit set on all but the last. */
  function Uleb128(v: nat): (b: seq<byte>)
    ensures |b| >= 1
  {
    if v >= 0x80 then [v % 0x80 + 0x80] + Uleb128(v / 0x80) else [v]
  }

  datatype Uleb = Uleb(value: nat, rest: seq<byte>)

  function DecodeUleb128(b: seq<byte>): Option<Uleb> {
    if b == [] then None
    else if b[0] < 0x80 then Some(Uleb(b[0], b[1..]))
    else
      match DecodeUleb128(b[1..])
      case None => None
      case Some(u) => Some(Uleb(b[0] % 0x80 + 0x80 * u.value, u.rest))
  }

  /** Every value is read back from its ULEB128 bytes, whatever follows them. */
  lemma {:induction false} Uleb128RoundTrip(v: nat, rest: seq<byte>)
    ensures DecodeUleb128(Uleb128(v) + rest) == Some(Uleb(v, rest))
  {
    if v >= 0x80 {
      Uleb128RoundTrip(v / 0x80, rest);
      assert (Uleb128(v) + rest)[1..] == Uleb128(v / 0x80) + rest;
    }
  }

  function Padding(n: int): (z: seq<byte>)
    ensures |z| == if n < 0 then 0 else n
    ensures forall i | 0 <= i < |z| :: z[i] == 0
  {
    if n <= 0 then [] else [0] + Padding(n - 1)
  }

  /** `buf` followed by an escaped instruction; the padding counts from the start of `buf`. */
  function EscapeBytes(buf: seq<byte>, opcode: nat, payload: nat): seq<byte> {
    var head := buf + [0xFE] + Uleb128(opcode);
    head + Padding(4 - |head|) + Le(payload, 4)
  }

  function EncodeInstruction(inst: Instruction): EncodedInst {
    if inst.encoding.Escape32? then EncodedInst(EscapeBytes([], inst.opcode, Payload(inst)), true)
    else EncodedInst(Le(Payload(inst), 4), false)
  }

  method AppendUleb128(buf: seq<byte>, val: nat) returns (out: seq<byte>)
    ensures out == buf + Uleb128(val)
  {
    out := buf;
    var v := val;
    while v >= 0x80
      invariant out + Uleb128(v) == buf + Uleb128(val)
    {
      out := out + [v % 0x80 + 0x80];
      v := v / 0x80;
    }
    out := out + [v];
  }

  method AppendEscape32(buf: seq<byte>, opcode: nat, payload: nat) returns (out: seq<byte>)
    ensures out == EscapeBytes(buf, opcode, payload)
  {
    out := AppendUleb128(buf + [0xFE], opcode);
    ghost var head := out;
    while |out| < 4
      invariant |head| <= |out| && out + Padding(4 - |out|) == head + Padding(4 - |head|)
    {
      assert Padding(4 - |out|) == [0] + Padding(4 - |out| - 1);
      out := out + [0];
    }
    out := out + [payload % 256];
    out := out + [payload / 0x100 % 256];
    out := out + [payload / 0x1_0000 % 256];
    out := out + [payload / 0x100_0000 % 256];
    LeOfWord(payload);
  }

  // ---- lookup by name ----

  /** The first table entry with that name. */
  function FindEntry(mnemonic: string, from: nat): (r: Option<Index>)
    requires from <= OPCODE_COUNT
    ensures r.Some? ==> from <= r.value && Entry(r.value).mnemonic == mnemonic
    decreases OPCODE_COUNT - from, mnemonic
  {
    if from == OPCODE_COUNT then None
    else if mnemonic == Entry(from).mnemonic then Some(from)
    else FindEntry(mnemonic, from + 1)
  }

  function Instantiate(e: OpcodeEntry, ops: Operands): Instruction {
    Instruction(e.opcode, e.encoding, e.format, if e.func >= 0 then ops.(func := e.func) else ops)
  }

  /** Encoding by name; an unknown name gives no bytes. */
  method Encode(mnemonic: string, ops: Operands) returns (r: EncodedInst)
    ensures var e := FindEntry(mnemonic, 0);
      r == if e.Some? then EncodeInstruction(Instantiate(Entry(e.value), ops)) else EncodedInst([], false)
  {
    for i := 0 to OPCODE_COUNT
      invariant FindEntry(mnemonic, 0) == FindEntry(mnemonic, i)
    {
      if mnemonic == Entry(i).mnemonic {
        return EncodeInstruction(Instantiate(Entry(i), ops));
      }
    }
    return EncodedInst([], false);
  }
}
