/**
  The opcode map of the HVM instruction reference, group by group, is what looking mnemonics up
  gives, in either case of letters.
 */
module InstructionSet {
  import opened Ast
  import opened Encoder
  import opened EncoderTheorems
  import opened Mnemonics
  import opened Assembler

  /** The instruction of this name; opcodes from 0x80 up are escaped, and -1 is no function code. */
  predicate Is(name: string, opcode: nat, func: int, format: InstFormat) {
    FindEntry(name, 0).Some?
    && Entry(FindEntry(name, 0).value) ==
         OpcodeEntry(name, opcode, if opcode >= 0x80 then Escape32 else Base32, format, func)
  }

  /** One opcode, function codes from 0 on. */
  predicate Functions(opcode: nat, names: seq<string>) {
    forall k: nat | k < |names| :: Is(names[k], opcode, k, R)
  }

  /** Opcodes from this one on. */
  predicate Opcodes(opcode: nat, names: seq<string>, format: InstFormat) {
    forall k: nat | k < |names| :: Is(names[k], opcode + k, -1, format)
  }

  lemma Row(i: Index)
    ensures Is(Entry(i).mnemonic, Entry(i).opcode, Entry(i).func, Entry(i).format)
  {
    hide Entry; hide FindEntry;
    MnemonicFindsEntry(i);
    EntryShape(i);
  }

  lemma Moves()
    ensures Opcodes(0x00, ["NOP", "MOV"], R) && Opcodes(0x03, ["MOVZ", "LUI", "ADDI"], I)
    ensures Opcodes(0x06, ["RETAIN", "RELEASE"], R) && Is("ICACHE.RNG", 0x0B, -1, R)
  {
    hide FindEntry; hide Is;
    Row(0); Row(1); Row(2); Row(3); Row(4); Row(5); Row(6); Row(7);
  }

  lemma Arithmetic()
    ensures Functions(0x10, ["ADD", "SUB", "MUL"]) && Functions(0x13, ["SHL", "SHR", "SAR"])
    ensures Is("DIV", 0x10, 5, R) && Is("DIVU", 0x10, 6, R) && Is("REM", 0x10, 7, R)
    ensures Functions(0x20, ["AND", "OR", "XOR"]) && Is("NOT", 0x21, -1, R)
  {
    hide FindEntry; hide Is;
    Row(8); Row(9); Row(10); Row(11); Row(12); Row(13); Row(14); Row(15); Row(16); Row(17); Row(18); Row(19); Row(20);
  }

  lemma Comparisons()
    ensures Functions(0x40, ["CMPEQ", "CMPNE", "CMPLT", "CMPLE"]) && Functions(0x41, ["FCMPEQ", "FCMPLT", "FCMPLE"])
    ensures Functions(0x30, ["FADD", "FSUB", "FMUL", "FDIV"])
  {
    hide FindEntry; hide Is;
    Row(21); Row(22); Row(23); Row(24); Row(25); Row(26); Row(27); Row(28); Row(29); Row(30); Row(31);
  }

  lemma Branches()
    ensures Opcodes(0x50, ["BEQ", "BNE", "BLT", "BLE"], B)
  {
    hide FindEntry; hide Is;
    Row(32); Row(33); Row(34); Row(35);
  }

  lemma Jumps()
    ensures Opcodes(0x60, ["JMP", "JAL"], J) && Is("JALR", 0x62, -1, I) && Is("RET", 0x63, -1, R)
  {
    hide FindEntry; hide Is;
    Row(36); Row(37); Row(38); Row(39);
  }

  lemma Loads()
    ensures Opcodes(0x70, ["LD.B", "LD.BU", "LD.H", "LD.HU"], I)
  {
    hide FindEntry; hide Is;
    Row(40); Row(41); Row(42); Row(43);
  }

  lemma WideLoads()
    ensures Opcodes(0x74, ["LD.W", "LD.WU", "LD.D"], I) && Is("LD.P", 0x77, -1, R)
  {
    hide FindEntry; hide Is;
    Row(44); Row(45); Row(46); Row(47);
  }

  lemma Stores()
    ensures Opcodes(0x78, ["ST.B", "ST.H", "ST.W", "ST.D"], I)
  {
    hide FindEntry; hide Is;
    Row(48); Row(49); Row(50); Row(51);
  }

  lemma StackAccesses()
    ensures Is("ST.P", 0x7C, -1, R) && Is("LDA", 0x7D, -1, I) && Opcodes(0x7E, ["PUSH", "POP"], R)
  {
    hide FindEntry; hide Is;
    Row(52); Row(53); Row(54); Row(55);
  }

  lemma Frames()
    ensures Is("ENTER", 0x80, -1, I) && Is("LEAVE", 0x81, -1, R) && Opcodes(0x82, ["ADJSP", "FRAME"], I)
  {
    hide FindEntry; hide Is;
    Row(56); Row(57); Row(58); Row(59);
  }

  lemma Calls()
    ensures Opcodes(0xB4, ["CALL"], J) && Opcodes(0xB6, ["TAILCALL"], J) && Is("SYSCALL", 0xC0, -1, I)
  {
    hide FindEntry; hide Is;
    Row(60); Row(61); Row(62);
  }

  lemma Traps()
    ensures Opcodes(0xC1, ["BREAK", "ECALL", "TRAPRET"], R)
  {
    hide FindEntry; hide Is;
    Row(63); Row(64); Row(65);
  }

  lemma Atomics()
    ensures Opcodes(0xC4, ["LR.D", "SC.D"], R) && Is("CSRRW", 0xC6, -1, I)
  {
    hide FindEntry; hide Is;
    Row(66); Row(67); Row(68);
  }

  lemma HardwareLoops()
    ensures Is("SFENCE.VMA", 0xC8, -1, R) && Is("LOOP.SET", 0xD0, -1, I) && Is("LOOP.DECBR", 0xD1, -1, B)
  {
    hide FindEntry; hide Is;
    Row(69); Row(70); Row(71);
  }

  /** All 72 instructions of the map. */
  lemma OpcodeMap()
    ensures Opcodes(0x00, ["NOP", "MOV"], R) && Opcodes(0x03, ["MOVZ", "LUI", "ADDI"], I)
    ensures Opcodes(0x06, ["RETAIN", "RELEASE"], R) && Is("ICACHE.RNG", 0x0B, -1, R)
    ensures Functions(0x10, ["ADD", "SUB", "MUL"]) && Functions(0x13, ["SHL", "SHR", "SAR"])
    ensures Is("DIV", 0x10, 5, R) && Is("DIVU", 0x10, 6, R) && Is("REM", 0x10, 7, R)
    ensures Functions(0x20, ["AND", "OR", "XOR"]) && Is("NOT", 0x21, -1, R)
    ensures Functions(0x40, ["CMPEQ", "CMPNE", "CMPLT", "CMPLE"]) && Functions(0x41, ["FCMPEQ", "FCMPLT", "FCMPLE"])
    ensures Functions(0x30, ["FADD", "FSUB", "FMUL", "FDIV"])
    ensures Opcodes(0x50, ["BEQ", "BNE", "BLT", "BLE"], B) && Opcodes(0x60, ["JMP", "JAL"], J)
    ensures Is("JALR", 0x62, -1, I) && Is("RET", 0x63, -1, R)
    ensures Opcodes(0x70, ["LD.B", "LD.BU", "LD.H", "LD.HU"], I) && Opcodes(0x74, ["LD.W", "LD.WU", "LD.D"], I)
    ensures Is("LD.P", 0x77, -1, R) && Opcodes(0x78, ["ST.B", "ST.H", "ST.W", "ST.D"], I)
    ensures Is("ST.P", 0x7C, -1, R) && Is("LDA", 0x7D, -1, I) && Opcodes(0x7E, ["PUSH", "POP"], R)
    ensures Is("ENTER", 0x80, -1, I) && Is("LEAVE", 0x81, -1, R) && Opcodes(0x82, ["ADJSP", "FRAME"], I)
    ensures Opcodes(0xB4, ["CALL"], J) && Opcodes(0xB6, ["TAILCALL"], J) && Is("SYSCALL", 0xC0, -1, I)
    ensures Opcodes(0xC1, ["BREAK", "ECALL", "TRAPRET"], R) && Opcodes(0xC4, ["LR.D", "SC.D"], R)
    ensures Is("CSRRW", 0xC6, -1, I) && Is("SFENCE.VMA", 0xC8, -1, R)
    ensures Is("LOOP.SET", 0xD0, -1, I) && Is("LOOP.DECBR", 0xD1, -1, B)
  {
    hide *;
    Moves();
    Arithmetic();
    Comparisons();
    Branches();
    Jumps();
    Loads();
    WideLoads();
    Stores();
    StackAccesses();
    Frames();
    Calls();
    Traps();
    Atomics();
    HardwareLoops();
  }

  /** The same but for the case of letters. */
  predicate Spells(s: string, mnemonic: string) {
    |s| == |mnemonic|
    && forall k | 0 <= k < |s| :: s[k] == mnemonic[k]
         || ('a' <= s[k] <= 'z' && 'A' <= mnemonic[k] <= 'Z'
             && s[k] as int - 'a' as int == mnemonic[k] as int - 'A' as int)
  }

  /** A mnemonic is found in upper case, lower case or any mixture of these. */
  lemma AnyCaseFinds(s: string, i: Index)
    requires Spells(s, Entry(i).mnemonic)
    ensures FindEntry(ToUpper(s), 0) == Some(i)
  {
    hide Entry; hide FindEntry;
    MnemonicsAreUpper(i);
    assert ToUpper(s) == Entry(i).mnemonic;
    MnemonicFindsEntry(i);
  }
}
