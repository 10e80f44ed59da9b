/**
  Assembling a listing of instructions, labels, branches and data gives the encoded instructions
  and the data, each branch holding its label's offset minus its own; and where real listings
  depart from it.
 */
module AssemblerListing {
  import opened Ast
  import opened Words
  import opened Encoder
  import opened Assembler
  import opened AssemblerTheorems
  import opened EncoderTheorems
  import opened Mnemonics
  import Elf

  // ---- items and their tokens ----

  /** A data directive with its operand: a number, a string, or an alignment. */
  datatype Datum =
    | Value(dir: string, value: int)
    | Chars(dir: string, text: string)
    | Align(to: int)

  /** Lines: an instruction, a label, a branch to a label, a data directive. */
  datatype Item =
    | Code(x: Inst)
    | Def(name: string)
    | Jump(x: Inst, target: string)
    | Data(d: Datum)

  function Lexeme(kind: AsmKind, text: string): AsmToken { AsmToken(kind, text, 0) }

  function Number(n: int): AsmToken { AsmToken(AsmKind.Number, "", n) }

  const COMMA_TOKEN := AsmToken(AsmKind.Comma, ",", 0)
  const NEWLINE_TOKEN := AsmToken(Newline, "", 0)

  function Digit(n: nat): char
    requires n < 10
  {
    ('0' as int + n) as char
  }

  /** A register by number. */
  function Numbered(r: nat): string
    requires r < 32
  {
    if r < 10 then ['r', Digit(r)] else ['r', Digit(r / 10), Digit(r % 10)]
  }

  function RegToken(r: nat): AsmToken
    requires r < 32
  {
    Lexeme(Ident, Numbered(r))
  }

  predicate Registers(o: Operands) { IsReg(o.rd) && IsReg(o.rs1) && IsReg(o.rs2) }

  /** The mnemonic, one token that is read ahead and dropped, and the three registers in order. */
  function Head(i: Index, o: Operands): Tokens
    requires Registers(o)
  {
    [Lexeme(Ident, Entry(i).mnemonic)] + [COMMA_TOKEN] + [RegToken(o.rd)] + [COMMA_TOKEN] + [RegToken(o.rs1)]
      + [COMMA_TOKEN] + [RegToken(o.rs2)]
    + [COMMA_TOKEN]
  }

  function ImmTokens(n: int): Tokens { if n < 0 then [Lexeme(Minus, "-")] + [Number(-n)] else [Number(n)] }

  /** How many bytes a number takes; 0 for any other directive. */
  function ValueSize(dir: string): nat {
    if dir == "byte" then 1
    else if dir == "word" || dir == "short" then 2
    else if dir == "quad" || dir == "dword" then 8
    else 0
  }

  /** Directives of their kind; aligning to 0 modulo 2^64 divides by zero. */
  predicate ProperDatum(d: Datum) {
    match d
    case Value(dir, _) => ValueSize(dir) > 0
    case Chars(dir, _) => dir in {"ascii", "asciz", "string"}
    case Align(n) => n % TWO64 != 0
  }

  function DatumTokens(d: Datum): Tokens {
    var dir := if d.Align? then "align" else d.dir;
    [Lexeme(Dot, ".")] + ([Lexeme(Ident, dir)] + ([Operand(d)] + [NEWLINE_TOKEN]))
  }

  function Operand(d: Datum): AsmToken {
    match d
    case Value(_, v) => Number(v)
    case Chars(_, text) => Lexeme(Text, text)
    case Align(n) => Number(n)
  }

  /** Code and branches in the operand ranges of the encoder; a label may have any name. */
  predicate Proper(it: Item) {
    match it
    case Code(x) => Canonical(x) && Registers(x.ops) && (Entry(x.index).func < 0 ==> x.ops.func == 0)
    case Def(name) => true
    case Jump(x, target) =>
      Canonical(x) && Registers(x.ops) && IsBranch(Entry(x.index)) && x.ops.imm == 0
    case Data(d) => ProperDatum(d)
  }

  function ListItem(it: Item): Tokens
    requires Proper(it)
  {
    match it
    case Code(x) => Head(x.index, x.ops) + ImmTokens(x.ops.imm) + [NEWLINE_TOKEN]
    case Def(name) => [Lexeme(Ident, name)] + [Lexeme(Colon, ":")]
    case Jump(x, target) => Head(x.index, x.ops) + [Lexeme(Ident, target)] + [NEWLINE_TOKEN]
    case Data(d) => DatumTokens(d)
  }

  predicate AllProper(items: seq<Item>) { forall it | it in items :: Proper(it) }

  function Listing(items: seq<Item>): Tokens
    requires AllProper(items)
  {
    if items == [] then [] else ListItem(items[0]) + Listing(items[1..])
  }

  // ---- what it should assemble to ----

  /** The bytes of a data directive at offset `at`. */
  function DatumBytes(d: Datum, at: nat): seq<byte> {
    match d
    case Value(dir, v) => Le(v % Pow256(ValueSize(dir)), ValueSize(dir))
    case Chars(dir, text) => Elf.Chars(text) + if dir == "ascii" then [] else [0]
    case Align(n) => Zeros(Gap(at, n % TWO64))
  }

  /** How far the next multiple of `n` is. */
  function Gap(at: nat, n: nat): nat {
    if n == 0 || at % n == 0 then 0 else n - at % n
  }

  /** The size of an item at offset `at`. */
  function SizeOfItem(it: Item, at: nat): nat {
    match it
    case Code(x) => EncodedLength(x.index)
    case Def(_) => 0
    case Jump(x, _) => EncodedLength(x.index)
    case Data(d) => |DatumBytes(d, at)|
  }

  /** The offset of the last definition of a label in code that starts at offset `at`. */
  function OffsetOf(items: seq<Item>, at: nat, name: string, otherwise: Option<nat>): Option<nat> {
    if items == [] then otherwise
    else
      OffsetOf(items[1..], at + SizeOfItem(items[0], at), name,
               if items[0].Def? && items[0].name == name then Some(at) else otherwise)
  }

  function EncodeWith(x: Inst, imm: int): seq<byte> {
    EncodeInstruction(Instantiate(Entry(x.index), x.ops.(imm := imm))).bytes
  }

  /** Every branch goes to a label of the listing. */
  predicate Closed(items: seq<Item>, offsets: string -> Option<nat>) {
    forall it | it in items && it.Jump? :: offsets(it.target).Some?
  }

  /** The bytes of one item at its offset. */
  function ItemBytes(it: Item, at: nat, offsets: string -> Option<nat>): seq<byte>
    requires it.Jump? ==> offsets(it.target).Some?
  {
    match it
    case Code(x) => EncoderTheorems.Bytes(x)
    case Def(_) => []
    case Jump(x, target) => EncodeWith(x, offsets(target).value - at)
    case Data(d) => DatumBytes(d, at)
  }

  /** Each item's bytes; a branch at offset `at` holds the distance to its label. */
  function Resolved(items: seq<Item>, at: nat, offsets: string -> Option<nat>): seq<byte>
    requires Closed(items, offsets)
  {
    if items == [] then []
    else
      assert items[0] in items;
      ItemBytes(items[0], at, offsets) + Resolved(items[1..], at + SizeOfItem(items[0], at), offsets)
  }

  // ---- names ----

  lemma RegNamesStartOtherwise(i: nat)
    requires i < 32
    ensures |RegName(i)| > 0 && RegName(i)[0] != 'r'
  {
  }

  lemma {:induction false} NotInTable(s: string, from: nat)
    requires |s| > 0 && s[0] == 'r' && from <= 32
    ensures FindReg(s, from) == None
    decreases 32 - from
  {
    hide RegName;
    if from < 32 {
      RegNamesStartOtherwise(from);
      NotInTable(s, from + 1);
    }
  }

  /** The numbered names are the registers. */
  lemma NumberedParses(r: nat)
    requires r < 32
    ensures ParseReg(Numbered(r)) == r
  {
    hide RegName;
    var s := Numbered(r);
    NotInTable(s, 0);
    hide FindReg;
    if r < 10 {
      assert s[1..] == [Digit(r)];
      OneDigit(r);
    } else {
      assert s[1..] == [Digit(r / 10), Digit(r % 10)];
      TwoDigits(r);
    }
    assert s[0] == 'r' && s != "zero";
    if s == "r0" {
      assert |s| == 2 && s[1] == '0' && r < 10;
    }
  }

  lemma OneDigit(r: nat)
    requires r < 10
    ensures Atoi([Digit(r)], 0) == r
  {
    assert [Digit(r)][1..] == [];
  }

  lemma TwoDigits(r: nat)
    requires 10 <= r < 100
    ensures Atoi([Digit(r / 10), Digit(r % 10)], 0) == r
  {
    var s := [Digit(r / 10), Digit(r % 10)];
    assert s[1..] == [Digit(r % 10)] && s[1..][1..] == [];
    assert Atoi(s[1..], r / 10) == 10 * (r / 10) + r % 10;
  }

  /** A name that starts with `r` and no digit is taken for register 0. */
  lemma NamesInRAreRegisterZero(s: string)
    requires |s| > 1 && s[0] == 'r' && !IsDigit(s[1])
    ensures ParseReg(s) == 0
  {
    hide RegName;
    NotInTable(s, 0);
    assert s[1..][0] == s[1];
  }

  /** The register a name of two or three characters stands for: arguments, temporaries, saved registers, the rest. */
  function Place(s: string): int
    requires |s| >= 2
  {
    var k := s[1] as int - '0' as int;
    if s == "zero" then 0
    else if s[0] == 'a' then (if k <= 2 then 1 + k else 2 + k)
    else if s == "tp" then 4
    else if s[0] == 't' then 9 + k
    else if s == "sp" then 31
    else if s[0] == 's' then (if |s| == 2 then 16 + k else 26 + (s[2] as int - '0' as int))
    else if s[0] == 'l' then 29
    else 30
  }

  lemma PlaceOf(i: nat)
    requires i < 32
    ensures |RegName(i)| >= 2 && Place(RegName(i)) == i
  {
  }

  lemma {:induction false} NameFound(i: nat, from: nat)
    requires from <= i < 32
    ensures FindReg(RegName(i), from) == Some(i)
    decreases i - from
  {
    hide RegName; hide Place;
    if from < i {
      PlaceOf(i);
      PlaceOf(from);
      NameFound(i, from + 1);
    }
  }

  lemma NameParses(i: nat)
    requires i < 32
    ensures ParseReg(RegName(i)) == i
  {
    hide RegName; hide FindReg; hide Place;
    NameFound(i, 0);
    PlaceOf(i);
    RegNamesStartOtherwise(i);
    if RegName(i) == "zero" { assert Place("zero") == 0 by { ZeroPlace(); } }
  }

  lemma ZeroPlace()
    ensures Place("zero") == 0
  {
  }

  /** The other names: arguments a0 to a6 around the thread pointer, t0 to t6, s0 to s12, and five of their own. */
  lemma ConventionParses(k: nat)
    ensures k <= 2 ==> ParseReg(['a', Digit(k)]) == 1 + k
    ensures 3 <= k <= 6 ==> ParseReg(['a', Digit(k)]) == 2 + k
    ensures k <= 6 ==> ParseReg(['t', Digit(k)]) == 9 + k
    ensures k <= 9 ==> ParseReg(['s', Digit(k)]) == 16 + k
    ensures 10 <= k <= 12 ==> ParseReg(['s', '1', Digit(k - 10)]) == 16 + k
    ensures ParseReg("zero") == 0 && ParseReg("tp") == 4 && ParseReg("lr") == 29 && ParseReg("fp") == 30
    ensures ParseReg("sp") == 31
  {
    hide ParseReg; hide RegName; hide Digit;
    ConventionNames(k);
    if k <= 12 { NameParses(16 + k); }
    if k <= 6 {
      NameParses(9 + k);
      NameParses(if k <= 2 then 1 + k else 2 + k);
    }
    OtherNames();
  }

  lemma OtherNames()
    ensures ParseReg("zero") == 0 && ParseReg("tp") == 4 && ParseReg("lr") == 29 && ParseReg("fp") == 30
    ensures ParseReg("sp") == 31
  {
    hide ParseReg;
    NameParses(0);
    NameParses(4);
    NameParses(29);
    NameParses(30);
    NameParses(31);
  }

  lemma ConventionNames(k: nat)
    ensures k <= 2 ==> RegName(1 + k) == ['a', Digit(k)]
    ensures 3 <= k <= 6 ==> RegName(2 + k) == ['a', Digit(k)]
    ensures k <= 6 ==> RegName(9 + k) == ['t', Digit(k)]
    ensures k <= 9 ==> RegName(16 + k) == ['s', Digit(k)]
    ensures 10 <= k <= 12 ==> RegName(16 + k) == ['s', '1', Digit(k - 10)]
  {
  }

  // ---- one line ----

  lemma MnemonicFound(i: Index)
    ensures FindEntry(ToUpper(Entry(i).mnemonic), 0) == Some(i)
  {
    hide Entry; hide FindEntry;
    MnemonicsAreUpper(i);
    assert ToUpper(Entry(i).mnemonic) == Entry(i).mnemonic;
    MnemonicFindsEntry(i);
  }

  /** One register operand with its comma. */
  lemma RegOperand(st: Asm, b: bool, p: Parsed, r: nat, rest: Tokens)
    requires r < 32 && |p.regs| < 3
    ensures ParseOperands(st, b, p, [RegToken(r)] + ([COMMA_TOKEN] + rest))
      == ParseOperands(st, b, p.(regs := p.regs + [r]), rest)
  {
    hide ParseReg; hide Numbered; hide LabelValue;
    NumberedParses(r);
    var ts := [RegToken(r)] + ([COMMA_TOKEN] + rest);
    var q := p.(regs := p.regs + [r as int]);
    assert Rest(ts) == [COMMA_TOKEN] + rest && Rest([COMMA_TOKEN] + rest) == rest;
    assert ParseOperands(st, b, p, ts) == ParseOperands(st, b, q, [COMMA_TOKEN] + rest);
  }

  /** The head of a line leaves the three registers parsed. */
  lemma HeadParses(st: Asm, b: bool, o: Operands, rest: Tokens)
    requires Registers(o)
    ensures ParseOperands(st, b, NO_OPERANDS,
      [RegToken(o.rd)] + ([COMMA_TOKEN]
        + ([RegToken(o.rs1)] + ([COMMA_TOKEN] + ([RegToken(o.rs2)] + ([COMMA_TOKEN] + rest))))))
      == ParseOperands(st, b, Parsed([o.rd] + [o.rs1] + [o.rs2], 0, false), rest)
  {
    hide ParseOperands; hide RegToken;
    RegOperand(st, b, NO_OPERANDS, o.rd,
      [RegToken(o.rs1)] + ([COMMA_TOKEN] + ([RegToken(o.rs2)] + ([COMMA_TOKEN] + rest))));
    assert NO_OPERANDS.regs + [o.rd] == [o.rd];
    RegOperand(st, b, Parsed([o.rd], 0, false), o.rs1, [RegToken(o.rs2)] + ([COMMA_TOKEN] + rest));
    RegOperand(st, b, Parsed([o.rd] + [o.rs1], 0, false), o.rs2, rest);
  }

  lemma ImmParses(st: Asm, b: bool, p: Parsed, n: int, rest: Tokens)
    ensures ParseOperands(st, b, p, ImmTokens(n) + ([NEWLINE_TOKEN] + rest)) == (WithImm(p, n), rest)
  {
    hide IdentOperand;
    var tail := [NEWLINE_TOKEN] + rest;
    assert Rest(tail) == rest;
    EndOfLine(st, b, WithImm(p, n), rest);
    if n < 0 {
      var ts := [Lexeme(Minus, "-")] + [Number(-n)] + tail;
      assert Rest(ts) == [Number(-n)] + tail && Rest([Number(-n)] + tail) == tail;
    } else {
      assert Rest([Number(n)] + tail) == tail;
    }
  }

  lemma EndOfLine(st: Asm, b: bool, p: Parsed, rest: Tokens)
    ensures ParseOperands(st, b, p, [NEWLINE_TOKEN] + rest) == (p, rest)
  {
    assert Rest([NEWLINE_TOKEN] + rest) == rest;
  }

  lemma TargetParses(st: Asm, b: bool, p: Parsed, name: string, rest: Tokens)
    requires ParseReg(name) < 0 || |p.regs| >= 3
    ensures ParseOperands(st, b, p, [Lexeme(Ident, name)] + ([NEWLINE_TOKEN] + rest)) ==
      (WithImm(p, LabelValue(st, b, name, p.imm)), rest)
  {
    hide ParseReg; hide LabelValue;
    assert Rest([Lexeme(Ident, name)] + ([NEWLINE_TOKEN] + rest)) == [NEWLINE_TOKEN] + rest;
    EndOfLine(st, b, WithImm(p, LabelValue(st, b, name, p.imm)), rest);
  }

  /** The token behind a mnemonic does not matter, be it an operand or the end of the line. */
  lemma AheadTokenDropped(st: Asm, i: Index, t: AsmToken, ts: Tokens)
    requires !t.kind.Colon? && !t.kind.End?
    ensures Round(st, [Lexeme(Ident, Entry(i).mnemonic)] + ([t] + ts)) == AssembleInst(st, i, ts)
  {
    hide Entry; hide AssembleInst; hide FindEntry; hide ToUpper;
    MnemonicFound(i);
    var all := [Lexeme(Ident, Entry(i).mnemonic)] + ([t] + ts);
    assert Rest(all) == [t] + ts && Rest([t] + ts) == ts;
  }

  /** A line whose operands parse to `p` appends the instruction they make. */
  lemma LineRuns(st: Asm, i: Index, o: Operands, imm: Tokens, rest: Tokens, p: Parsed)
    requires Registers(o)
    requires ParseOperands(st, IsBranch(Entry(i)), Parsed([o.rd] + [o.rs1] + [o.rs2], 0, false),
      imm + ([NEWLINE_TOKEN] + rest)) == (p, rest)
    ensures Round(st, Head(i, o) + imm + [NEWLINE_TOKEN] + rest) ==
      Advance(Append(st, EncodeInstruction(Instantiate(Entry(i), OperandsOf(p))).bytes), rest)
  {
    hide Entry; hide RegToken; hide ParseOperands; hide EncodeInstruction; hide Instantiate; hide IsBranch; hide Round;
    var tail := imm + ([NEWLINE_TOKEN] + rest);
    HeadParses(st, IsBranch(Entry(i)), o, tail);
    var ops := [RegToken(o.rd)]
      + ([COMMA_TOKEN] + ([RegToken(o.rs1)] + ([COMMA_TOKEN] + ([RegToken(o.rs2)] + ([COMMA_TOKEN] + tail)))));
    assert Head(i, o) + imm + [NEWLINE_TOKEN] + rest == [Lexeme(Ident, Entry(i).mnemonic)] + ([COMMA_TOKEN] + ops);
    AheadTokenDropped(st, i, COMMA_TOKEN, ops);
  }

  lemma Int32Small(n: int)
    requires -0x10_0000 <= n < 0x10_0000
    ensures Int32(n) == n
  {
  }

  /** Narrowing to 32 bits changes none of the bits an instruction holds. */
  lemma Int32Bits(n: int)
    ensures Int32(n) % 0x8000 == n % 0x8000 && Int32(n) % 0x10_0000 == n % 0x10_0000
  {
    var q := n / TWO32;
    assert n == TWO32 * q + n % TWO32;
    assert Int32(n) == n - TWO32 * q || Int32(n) == n - TWO32 * (q + 1);
    MultiplesDrop(n, q);
    MultiplesDrop(n, q + 1);
  }

  lemma MultiplesDrop(n: int, q: int)
    ensures (n - TWO32 * q) % 0x8000 == n % 0x8000 && (n - TWO32 * q) % 0x10_0000 == n % 0x10_0000
  {
    assert TWO32 * q == 0x8000 * (0x2_0000 * q) && TWO32 * q == 0x10_0000 * (0x1000 * q);
    ModShift(n, 0x8000, 0x2_0000 * q);
    ModShift(n, 0x10_0000, 0x1000 * q);
  }

  // ---- items ----

  lemma OperandsRead(x: Inst, imm: int)
    requires Canonical(x) && Registers(x.ops) && (Entry(x.index).func < 0 ==> x.ops.func == 0)
    ensures Instantiate(Entry(x.index), OperandsOf(Parsed([x.ops.rd] + [x.ops.rs1] + [x.ops.rs2], imm, true)))
      == Instantiate(Entry(x.index), x.ops.(imm := Int32(imm)))
  {
    hide Entry; hide Int32;
  }

  /** Only the low bits of the immediate reach the word. */
  lemma ImmediateBits(x: Inst, imm: int)
    requires IsBranch(Entry(x.index))
    ensures EncodeInstruction(Instantiate(Entry(x.index), x.ops.(imm := Int32(imm)))).bytes == EncodeWith(x, imm)
  {
    hide Entry; hide Int32; hide BitOr; hide Le; hide EscapeBytes;
    Int32Bits(imm);
  }

  function AfterItem(st: Asm, it: Item): Asm {
    match it
    case Code(x) => Append(st, EncoderTheorems.Bytes(x))
    case Def(name) => if st.second then st else st.(labels := st.labels[name := |st.data|])
    case Jump(x, target) => Append(st, EncodeWith(x, LabelValue(st, true, target, 0)))
    case Data(d) => Append(st, Assembler.Bytes(st.second, DatumBytes(d, |st.data|)))
  }

  lemma DotRound(st: Asm, ts: Tokens)
    ensures var all := [Lexeme(Dot, ".")] + ts; Peek(all).kind.Dot? && Round(st, all) == Directive(st, ts)
  {
    hide Directive;
    assert Rest([Lexeme(Dot, ".")] + ts) == ts;
  }

  /** A data directive takes its operand and drops what else is on the line. */
  lemma DataLine(st: Asm, dir: string, operand: AsmToken, ts: Tokens)
    requires IsData(dir)
    ensures Round(st, [Lexeme(Dot, ".")] + ([Lexeme(Ident, dir)] + ([operand] + ts))) ==
      if operand.kind.End? then Advance(Append(st, DataBytes(dir, operand, st.second, |st.data|)), [operand] + ts)
      else Advance(Append(st, DataBytes(dir, operand, st.second, |st.data|)), SkipLine(ts))
  {
    hide SelectSection; hide Declare; hide DataBytes; hide Round;
    var line := [Lexeme(Ident, dir)] + ([operand] + ts);
    DotRound(st, line);
    assert Rest(line) == [operand] + ts;
    assert !operand.kind.End? ==> Rest([operand] + ts) == ts;
    assert SectionNamed(dir).None? && !IsGlobal(dir) && dir != "section" by { DataIsNoSection(dir); }
    hide IsData; hide IsGlobal; hide SectionNamed;
  }

  lemma DataIsNoSection(dir: string)
    requires IsData(dir)
    ensures SectionNamed(dir).None? && !IsGlobal(dir) && dir != "section"
  {
    var names := [dir, "text", "data", "rodata", "global", "globl", "section"];
    assert |"byte"| == 4 && "byte"[0] == 'b' && "word"[0] == 'w' && "quad"[0] == 'q' && "string"[1] == 't';
    assert "text"[0] == 't' && "data"[0] == 'd' && "data"[1] == 'a' && "dword"[1] == 'w';
    assert "rodata"[0] == 'r' && "global"[0] == 'g' && "globl"[0] == 'g' && "section"[1] == 'e';
    assert "short"[0] == 's' && "short"[1] == 'h' && "ascii"[0] == 'a' && "asciz"[0] == 'a' && "align"[0] == 'a';
  }

  /** What the directives append is what they stand for. */
  lemma DatumIs(d: Datum, second: bool, size: nat)
    requires ProperDatum(d)
    ensures var dir := if d.Align? then "align" else d.dir;
      IsData(dir) && DataBytes(dir, Operand(d), second, size) == Assembler.Bytes(second, DatumBytes(d, size))
  {
    match d
    case Value(dir, v) => ValueIs(dir, v, second, size);
    case Chars(dir, text) => CharsIs(dir, text, second, size);
    case Align(n) => AlignIs(n, second, size);
  }

  lemma ValueIs(dir: string, v: int, second: bool, size: nat)
    requires ValueSize(dir) > 0
    ensures IsData(dir)
    ensures DataBytes(dir, Number(v), second, size)
      == Assembler.Bytes(second, Le(v % Pow256(ValueSize(dir)), ValueSize(dir)))
  {
    Pow256Values();
    if ValueSize(dir) == 1 { LeStep(v % 0x100, 1); }
    hide Le; hide Pow256; hide Assembler.Bytes;
  }

  lemma CharsIs(dir: string, text: string, second: bool, size: nat)
    requires dir in {"ascii", "asciz", "string"}
    ensures IsData(dir)
    ensures DataBytes(dir, Lexeme(Text, text), second, size)
      == Assembler.Bytes(second, Elf.Chars(text) + if dir == "ascii" then [] else [0])
  {
    hide Elf.Chars; hide Assembler.Bytes;
    assert Elf.Chars(text) + [] == Elf.Chars(text);
    assert "ascii"[4] == 'i' && "asciz"[4] == 'z' && "string"[0] == 's' && "byte"[0] == 'b' && "word"[0] == 'w';
    assert "short"[1] == 'h' && "quad"[0] == 'q' && "dword"[0] == 'd' && "string"[1] == 't';
  }

  lemma AlignIs(n: int, second: bool, size: nat)
    requires n % TWO64 != 0
    ensures IsData("align")
    ensures DataBytes("align", Number(n), second, size) == Assembler.Bytes(second, Zeros(Gap(size, n % TWO64)))
  {
    assert "align"[0] == 'a' && "align"[1] == 'l' && "ascii"[1] == 's' && "asciz"[1] == 's';
    assert "byte"[0] == 'b' && "word"[0] == 'w' && "short"[0] == 's' && "quad"[0] == 'q' && "dword"[0] == 'd';
    assert "string"[0] == 's';
  }

  lemma DataRuns(st: Asm, d: Datum, rest: Tokens)
    requires ProperDatum(d)
    ensures Round(st, DatumTokens(d) + rest) == Advance(AfterItem(st, Data(d)), rest)
  {
    hide *;
    DatumSplits(d, rest);
    DatumIs(d, st.second, |st.data|);
    DataLine(st, if d.Align? then "align" else d.dir, Operand(d), [NEWLINE_TOKEN] + rest);
    LineEnds(rest);
    AfterDatum(st, d);
  }

  lemma DatumSplits(d: Datum, rest: Tokens)
    ensures DatumTokens(d) + rest ==
      [Lexeme(Dot, ".")]
      + ([Lexeme(Ident, if d.Align? then "align" else d.dir)] + ([Operand(d)] + ([NEWLINE_TOKEN] + rest)))
    ensures !Operand(d).kind.End?
  {
    var dot, word, operand := [Lexeme(Dot, ".")], [Lexeme(Ident, if d.Align? then "align" else d.dir)], [Operand(d)];
    hide Operand;
    Regrouped(operand, [NEWLINE_TOKEN], rest);
    Regrouped(word, operand + [NEWLINE_TOKEN], rest);
    Regrouped(dot, word + (operand + [NEWLINE_TOKEN]), rest);
    OperandIsNoEnd(d);
  }

  lemma OperandIsNoEnd(d: Datum)
    ensures !Operand(d).kind.End?
  {
  }

  lemma Regrouped(a: Tokens, b: Tokens, rest: Tokens)
    ensures (a + b) + rest == a + (b + rest)
  {
  }

  lemma LineEnds(rest: Tokens)
    ensures SkipLine([NEWLINE_TOKEN] + rest) == rest
  {
    assert Rest([NEWLINE_TOKEN] + rest) == rest;
  }

  lemma AfterDatum(st: Asm, d: Datum)
    ensures AfterItem(st, Data(d)) == Append(st, Assembler.Bytes(st.second, DatumBytes(d, |st.data|)))
  {
  }

  lemma CodeRuns(st: Asm, x: Inst, rest: Tokens)
    requires Proper(Code(x))
    ensures Round(st, ListItem(Code(x)) + rest) == Advance(AfterItem(st, Code(x)), rest)
  {
    hide Entry; hide Head; hide ImmTokens; hide ParseOperands; hide EncodeInstruction; hide Round; hide Instantiate;
    var o := x.ops;
    var regs := Parsed([o.rd] + [o.rs1] + [o.rs2], 0, false);
    ImmParses(st, IsBranch(Entry(x.index)), regs, o.imm, rest);
    LineRuns(st, x.index, o, ImmTokens(o.imm), rest, WithImm(regs, o.imm));
    OperandsRead(x, o.imm);
    Int32Small(o.imm);
    assert o.(imm := o.imm) == o;
  }

  lemma JumpRuns(st: Asm, x: Inst, target: string, rest: Tokens)
    requires Proper(Jump(x, target))
    ensures Round(st, ListItem(Jump(x, target)) + rest) == Advance(AfterItem(st, Jump(x, target)), rest)
  {
    hide Head; hide ParseOperands; hide EncodeInstruction; hide Round; hide Instantiate; hide ParseReg;
    hide LabelValue; hide EncodeWith;
    BranchHasNoFunction(x.index);
    hide Entry;
    var o := x.ops;
    var regs := Parsed([o.rd] + [o.rs1] + [o.rs2], 0, false);
    var v := LabelValue(st, true, target, 0);
    TargetParses(st, true, regs, target, rest);
    LineRuns(st, x.index, o, [Lexeme(Ident, target)], rest, WithImm(regs, v));
    OperandsRead(x, v);
    ImmediateBits(x, v);
  }

  lemma BranchHasNoFunction(i: Index)
    requires IsBranch(Entry(i))
    ensures Entry(i).func < 0
  {
    EntryShape(i);
    hide Entry;
  }

  lemma DefRuns(st: Asm, name: string, rest: Tokens)
    ensures Round(st, ListItem(Def(name)) + rest) == Advance(AfterItem(st, Def(name)), rest)
  {
    hide FindEntry; hide ToUpper; hide AssembleInst; hide SkipLine;
    var ts := ListItem(Def(name)) + rest;
    assert Rest(ts) == [Lexeme(Colon, ":")] + rest && Rest([Lexeme(Colon, ":")] + rest) == rest;
  }

  lemma ItemRuns(st: Asm, it: Item, rest: Tokens)
    requires Proper(it)
    ensures !Peek(ListItem(it) + rest).kind.End? && Round(st, ListItem(it) + rest) == Advance(AfterItem(st, it), rest)
  {
    hide Round; hide Entry; hide RegToken; hide ImmTokens; hide AfterItem;
    match it
    case Code(x) => CodeRuns(st, x, rest);
    case Def(name) => DefRuns(st, name, rest);
    case Jump(x, target) => JumpRuns(st, x, target, rest);
    case Data(d) => DataRuns(st, d, rest);
  }

  // ---- listings ----

  function AfterItems(st: Asm, items: seq<Item>): Asm
    decreases |items|
  {
    if items == [] then st else AfterItems(AfterItem(st, items[0]), items[1..])
  }

  /** The main loop takes a listing item by item, then goes on with what follows. */
  lemma {:induction false} ListingRuns(st: Asm, items: seq<Item>, rest: Tokens)
    requires AllProper(items)
    ensures Pass(st, Listing(items) + rest) == Pass(AfterItems(st, items), rest)
    decreases |items|
  {
    hide Round; hide AfterItem; hide ListItem; hide Proper; hide Peek;
    if items == [] {
      assert Listing(items) + rest == rest;
    } else {
      assert items[0] in items;
      var tail := Listing(items[1..]) + rest;
      ItemRuns(st, items[0], tail);
      ListingRuns(AfterItem(st, items[0]), items[1..], rest);
      assert Listing(items) + rest == ListItem(items[0]) + tail;
    }
  }

  lemma ItemSize(st: Asm, it: Item)
    ensures |AfterItem(st, it).data| == |st.data| + SizeOfItem(it, |st.data|)
    ensures AfterItem(st, it).second == st.second && AfterItem(st, it).cur == st.cur
  {
    hide Entry; hide EncodeInstruction; hide Instantiate;
    match it
    case Code(x) => EncodedSize(x.index, x.ops);
    case Def(_) =>
    case Jump(x, target) => EncodedSize(x.index, x.ops.(imm := LabelValue(st, true, target, 0)));
    case Data(_) =>
  }

  /** The first pass finds each label's offset. */
  lemma {:induction false} FirstPassOffsets(st: Asm, items: seq<Item>, name: string)
    requires !st.second
    ensures var t := AfterItems(st, items);
      Lookup(t.labels, name) == OffsetOf(items, |st.data|, name, Lookup(st.labels, name)) && t.cur == st.cur
        && !t.second
    decreases |items|
  {
    hide SizeOfItem; hide EncodeWith; hide EncoderTheorems.Bytes;
    if items != [] {
      ItemSize(st, items[0]);
      FirstPassOffsets(AfterItem(st, items[0]), items[1..], name);
    }
  }

  lemma ItemWrites(st: Asm, it: Item, offsets: string -> Option<nat>)
    requires st.second && (it.Jump? ==> offsets(it.target).Some? && Lookup(st.labels, it.target) == offsets(it.target))
    ensures AfterItem(st, it) == st.(data := st.data + ItemBytes(it, |st.data|, offsets))
  {
    hide EncodeWith; hide EncoderTheorems.Bytes;
    match it
    case Code(x) =>
    case Def(_) => assert st.data + [] == st.data;
    case Jump(x, target) => assert LabelValue(st, true, target, 0) == offsets(target).value - |st.data|;
    case Data(d) =>
  }

  lemma ResolvedFirst(items: seq<Item>, at: nat, offsets: string -> Option<nat>)
    requires Closed(items, offsets) && items != []
    ensures items[0].Jump? ==> offsets(items[0].target).Some?
    ensures Closed(items[1..], offsets)
    ensures Resolved(items, at, offsets)
      == ItemBytes(items[0], at, offsets) + Resolved(items[1..], at + SizeOfItem(items[0], at), offsets)
  {
    hide SizeOfItem; hide ItemBytes;
    assert items[0] in items;
  }

  /** The second pass writes the resolved bytes. */
  lemma {:induction false} SecondPassBytes(st: Asm, items: seq<Item>, offsets: string -> Option<nat>)
    requires st.second && Closed(items, offsets) && forall name :: Lookup(st.labels, name) == offsets(name)
    ensures AfterItems(st, items) == st.(data := st.data + Resolved(items, |st.data|, offsets))
    decreases |items|
  {
    hide SizeOfItem; hide Closed; hide ItemBytes; hide AfterItem; hide Lookup; hide Resolved;
    if items != [] {
      var it := items[0];
      ResolvedFirst(items, |st.data|, offsets);
      if it.Jump? { assert Lookup(st.labels, it.target) == offsets(it.target); }
      ItemSize(st, it);
      ItemWrites(st, it, offsets);
      SecondPassBytes(AfterItem(st, it), items[1..], offsets);
      var at := |st.data|;
      Joining(st.data, ItemBytes(it, at, offsets), Resolved(items[1..], at + SizeOfItem(it, at), offsets));
    } else {
      ResolvedNothing(|st.data|, offsets);
      assert st.data + [] == st.data;
    }
  }

  lemma ResolvedNothing(at: nat, offsets: string -> Option<nat>)
    ensures Resolved([], at, offsets) == []
  {
  }

  lemma Joining(a: seq<byte>, b: seq<byte>, c: seq<byte>)
    ensures a + b + c == a + (b + c)
  {
  }

  function Offsets(items: seq<Item>): string -> Option<nat> { name => OffsetOf(items, 0, name, None) }

  /**
    Assembling a listing gives in `.text` exactly the encoded items, every branch, forward or
    backward, holding the offset of its label minus its own.
   */
  lemma ListingAssembles(items: seq<Item>)
    requires AllProper(items) && Closed(items, Offsets(items))
    ensures Assembled(Listing(items)).text == Resolved(items, 0, Offsets(items))
  {
    hide AllProper; hide Resolved; hide OffsetOf; hide AfterItems; hide Closed; hide Lookup; hide Listing;
    var ts := Listing(items);
    assert ts + [] == ts;
    ListingRuns(START, items, []);
    var first := AfterItems(START, items);
    var second := first.(second := true, data := []);
    forall name ensures Lookup(second.labels, name) == Offsets(items)(name) {
      FirstPassOffsets(START, items, name);
      EmptyLookup(name);
    }
    FirstPassOffsets(START, items, "");
    ListingRuns(second, items, []);
    SecondPassBytes(second, items, Offsets(items));
  }

  lemma EmptyLookup(name: string)
    ensures Lookup(START.labels, name) == None
  {
  }

  function CodeOf(xs: seq<Inst>): (items: seq<Item>)
    ensures |items| == |xs| && forall it | it in items :: it.Code?
  {
    if xs == [] then [] else [Code(xs[0])] + CodeOf(xs[1..])
  }

  lemma {:induction false} CodeResolves(xs: seq<Inst>, at: nat, offsets: string -> Option<nat>)
    ensures Resolved(CodeOf(xs), at, offsets) == Stream(xs)
    decreases |xs|
  {
    hide EncoderTheorems.Bytes; hide SizeOfItem; hide Resolved;
    if xs != [] {
      CodeResolves(xs[1..], at + SizeOfItem(Code(xs[0]), at), offsets);
      assert CodeOf(xs)[0] == Code(xs[0]) && CodeOf(xs)[1..] == CodeOf(xs[1..]);
      ResolvedFirst(CodeOf(xs), at, offsets);
    } else {
      ResolvedNothing(at, offsets);
    }
  }

  lemma CodeIsCanonical(xs: seq<Inst>)
    requires AllProper(CodeOf(xs))
    ensures forall x | x in xs :: Canonical(x)
    decreases |xs|
  {
    hide Canonical; hide Registers; hide Entry;
    if xs != [] {
      assert CodeOf(xs)[1..] == CodeOf(xs[1..]);
      assert Code(xs[0]) in CodeOf(xs);
      forall it | it in CodeOf(xs[1..]) ensures Proper(it) { assert it in CodeOf(xs); }
      CodeIsCanonical(xs[1..]);
    }
  }

  /** Without branches it is the instruction stream, which decodes back to the instructions. */
  lemma CodeAssembles(xs: seq<Inst>)
    requires AllProper(CodeOf(xs))
    ensures Assembled(Listing(CodeOf(xs))).text == Stream(xs)
    ensures DecodeStream(ByField, Assembled(Listing(CodeOf(xs))).text) == Some(xs)
  {
    hide Resolved; hide CodeOf; hide Assembled; hide AllProper; hide Stream; hide Listing;
    ListingAssembles(CodeOf(xs));
    CodeResolves(xs, 0, Offsets(CodeOf(xs)));
    CodeIsCanonical(xs);
    StreamDecodes(xs);
  }
}
