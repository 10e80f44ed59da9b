/**
  The two-pass assembler over a token stream.

  The functions say what each directive, label and instruction does to the state of a pass;
  the class runs the two passes with a cursor and is proved to follow them.  The character
  lexer is not part of this model: a source is its list of tokens, with END for ever after.
 */
module Assembler {
  import opened Ast
  import opened Words
  import opened Encoder
  import Elf

  datatype AsmKind =
    | Ident | Number | Text | Colon | Comma | LParen | RParen | Plus | Minus | Star | Slash | Newline | End | Dot | Hash

  datatype AsmToken = AsmToken(kind: AsmKind, text: string, val: int)

  const END_TOKEN := AsmToken(End, "", 0)

  type Tokens = seq<AsmToken>

  function Peek(ts: Tokens): AsmToken { if ts == [] then END_TOKEN else ts[0] }

  /** END is never passed. */
  function Rest(ts: Tokens): (r: Tokens)
    ensures |r| <= |ts| && (!Peek(ts).kind.End? ==> |r| < |ts|)
  {
    if ts == [] || ts[0].kind.End? then ts else ts[1..]
  }

  /** Behind the next NEWLINE. */
  function SkipLine(ts: Tokens): (r: Tokens)
    ensures |r| <= |ts|
    decreases |ts|
  {
    if Peek(ts).kind.End? then ts
    else if Peek(ts).kind.Newline? then Rest(ts)
    else SkipLine(Rest(ts))
  }

  // ---- names ----

  function RegName(i: nat): string
    requires i < 32
  {
    if i == 0 then "zero" else if i == 1 then "a0" else if i == 2 then "a1" else if i == 3 then "a2"
    else if i == 4 then "tp" else if i == 5 then "a3" else if i == 6 then "a4" else if i == 7 then "a5"
    else if i == 8 then "a6" else if i == 9 then "t0" else if i == 10 then "t1" else if i == 11 then "t2"
    else if i == 12 then "t3" else if i == 13 then "t4" else if i == 14 then "t5" else if i == 15 then "t6"
    else if i == 16 then "s0" else if i == 17 then "s1" else if i == 18 then "s2" else if i == 19 then "s3"
    else if i == 20 then "s4" else if i == 21 then "s5" else if i == 22 then "s6" else if i == 23 then "s7"
    else if i == 24 then "s8" else if i == 25 then "s9" else if i == 26 then "s10" else if i == 27 then "s11"
    else if i == 28 then "s12" else if i == 29 then "lr" else if i == 30 then "fp" else "sp"
  }

  function FindReg(s: string, from: nat): (r: Option<nat>)
    requires from <= 32
    ensures r.Some? ==> from <= r.value < 32
    decreases 32 - from, s
  {
    if from == 32 then None else if s == RegName(from) then Some(from) else FindReg(s, from + 1)
  }

  predicate IsDigit(c: char) { '0' <= c <= '9' }

  /** The value of the leading digits, 0 when there are none. */
  function Atoi(s: string, acc: nat): nat
    decreases |s|
  {
    if s == [] || !IsDigit(s[0]) then acc else Atoi(s[1..], 10 * acc + (s[0] as int - '0' as int))
  }

  /** A register number, or -1; a name that starts with `r` counts by the digits behind it. */
  function ParseReg(s: string): (n: int)
    ensures -1 <= n < 32
  {
    if s == "zero" || s == "r0" then 0
    else if FindReg(s, 0).Some? then FindReg(s, 0).value
    else if |s| > 1 && s[0] == 'r' && Atoi(s[1..], 0) < 32 then Atoi(s[1..], 0)
    else -1
  }

  function Upper(c: char): char { if 'a' <= c <= 'z' then (c as int - 32) as char else c }

  function ToUpper(s: string): string { seq(|s|, i requires 0 <= i < |s| => Upper(s[i])) }

  // ---- state ----

  datatype SecName = TextSec | DataSec | RodataSec

  /** A global symbol; its value stays undetermined when no label has its name. */
  datatype Global = Global(name: string, value: Option<nat>)

  datatype Asm = Asm(second: bool, labels: map<string, nat>, cur: SecName, data: seq<byte>,
                     text: seq<byte>, dataSec: seq<byte>, rodata: seq<byte>, globals: seq<Global>)

  datatype Advance = Advance(st: Asm, rest: Tokens)

  function Commit(st: Asm): Asm {
    match st.cur
    case TextSec => st.(text := st.data)
    case DataSec => st.(dataSec := st.data)
    case RodataSec => st.(rodata := st.data)
  }

  function Append(st: Asm, b: seq<byte>): Asm { st.(data := st.data + b) }

  function SectionNamed(name: string): Option<SecName> {
    if name == "text" then Some(TextSec)
    else if name == "data" then Some(DataSec)
    else if name == "rodata" then Some(RodataSec)
    else None
  }

  // ---- directives ----

  /** A section is committed in the second pass only; selecting one starts it empty. */
  function SelectSection(st: Asm, name: Option<SecName>): Asm {
    var t := if st.second then Commit(st) else st;
    if name.Some? then t.(cur := name.value, data := []) else t
  }

  /** The bytes in the second pass, as many zeros in the first. */
  function Bytes(second: bool, b: seq<byte>): (r: seq<byte>)
    ensures |r| == |b|
  {
    if second then b else Zeros(|b|)
  }

  /** What a data directive with this operand appends; None when the operand is of the wrong kind. */
  function DataBytes(dir: string, operand: AsmToken, second: bool, size: nat): seq<byte> {
    if dir == "byte" then (if operand.kind.Number? then Bytes(second, [operand.val % 256]) else [])
    else if dir == "word" || dir == "short" then
      (if operand.kind.Number? then Bytes(second, Le(operand.val % 0x1_0000, 2)) else [])
    else if dir == "quad" || dir == "dword" then
      (if operand.kind.Number? then Bytes(second, Le(operand.val % TWO64, 8)) else [])
    else if dir == "ascii" then (if operand.kind.Text? then Bytes(second, Elf.Chars(operand.text)) else [])
    else if dir == "asciz" || dir == "string" then
      (if operand.kind.Text? then Bytes(second, Elf.Chars(operand.text) + [0]) else [])
    else if dir == "align" then (if operand.kind.Number? then Zeros(AlignGap(size, operand.val % TWO64)) else [])
    else []
  }

  /** `.align 0` divides by zero in the program; here it asks for nothing. */
  function AlignGap(size: nat, align: nat): nat {
    if align == 0 || size % align == 0 then 0 else align - size % align
  }

  predicate IsData(dir: string) {
    dir == "byte" || dir == "word" || dir == "short" || dir == "quad" || dir == "dword" || dir == "ascii"
      || dir == "asciz"
    || dir == "string" || dir == "align"
  }

  predicate IsGlobal(dir: string) { dir == "global" || dir == "globl" }

  function Lookup(labels: map<string, nat>, name: string): Option<nat> {
    if name in labels then Some(labels[name]) else None
  }

  function Declare(st: Asm, name: string): Asm {
    if st.second then st.(globals := st.globals + [Global(name, Lookup(st.labels, name))]) else st
  }

  /** The section name of `.section`, with or without its dot. */
  function SectionOperand(ts: Tokens): (r: (string, Tokens))
    ensures |r.1| <= |ts|
  {
    if Peek(ts).kind.Dot? then (Peek(Rest(ts)).text, Rest(Rest(ts))) else (Peek(ts).text, Rest(ts))
  }

  /** A directive, `ts` being what follows the dot. */
  function Directive(st: Asm, ts: Tokens): (a: Advance)
    ensures |a.rest| <= |ts|
  {
    var dir, rest := Peek(ts), Rest(ts);
    if !dir.kind.Ident? then Advance(st, rest)
    else if dir.text == "section" then
      Advance(SelectSection(st, SectionNamed(SectionOperand(rest).0)), SkipLine(SectionOperand(rest).1))
    else if SectionNamed(dir.text).Some? then Advance(SelectSection(st, SectionNamed(dir.text)), SkipLine(rest))
    else if IsGlobal(dir.text) then Advance(Declare(st, Peek(rest).text), SkipLine(Rest(rest)))
    else if IsData(dir.text) then
      Advance(Append(st, DataBytes(dir.text, Peek(rest), st.second, |st.data|)), SkipLine(Rest(rest)))
    else Advance(st, SkipLine(rest))
  }

  // ---- instructions ----

  datatype Parsed = Parsed(regs: seq<int>, imm: int, hasImm: bool)

  const NO_OPERANDS := Parsed([], 0, false)

  /** The value a label operand stands for: relative for a branch in the second pass. */
  function LabelValue(st: Asm, branch: bool, name: string, otherwise: int): int {
    if name !in st.labels then otherwise
    else if st.second && branch then st.labels[name] - |st.data|
    else st.labels[name]
  }

  function WithImm(p: Parsed, imm: int): Parsed { p.(imm := imm, hasImm := true) }

  /** A register while fewer than three are taken, else a label. */
  function IdentOperand(st: Asm, branch: bool, p: Parsed, name: string): Parsed {
    if ParseReg(name) >= 0 && |p.regs| < 3 then p.(regs := p.regs + [ParseReg(name)])
    else WithImm(p, LabelValue(st, branch, name, p.imm))
  }

  function MinusOperand(st: Asm, p: Parsed, t: AsmToken): Parsed {
    if t.kind.Number? then WithImm(p, -t.val)
    else if t.kind.Ident? then WithImm(p, if t.text in st.labels then -st.labels[t.text] else p.imm)
    else p
  }

  function PlusOperand(p: Parsed, t: AsmToken): Parsed { if t.kind.Number? then WithImm(p, t.val) else p }

  /** Operands up to the end of the line, which is consumed. */
  function ParseOperands(st: Asm, branch: bool, p: Parsed, ts: Tokens): (r: (Parsed, Tokens))
    ensures |r.1| <= |ts|
    decreases |ts|
  {
    var t, rest := Peek(ts), Rest(ts);
    if t.kind.End? || t.kind.Newline? then (p, rest)
    else if t.kind.Minus? then ParseOperands(st, branch, MinusOperand(st, p, Peek(rest)), Rest(rest))
    else if t.kind.Plus? then ParseOperands(st, branch, PlusOperand(p, Peek(rest)), Rest(rest))
    else if t.kind.Number? then ParseOperands(st, branch, WithImm(p, t.val), rest)
    else if t.kind.Ident? then ParseOperands(st, branch, IdentOperand(st, branch, p, t.text), rest)
    else ParseOperands(st, branch, p, rest)
  }

  /** Conversion to a 32-bit int. */
  function Int32(x: int): int { if x % TWO32 < TWO32 / 2 then x % TWO32 else x % TWO32 - TWO32 }

  function RegAt(p: Parsed, i: nat): int { if i < |p.regs| then p.regs[i] else 0 }

  function OperandsOf(p: Parsed): Operands {
    Operands(RegAt(p, 0), RegAt(p, 1), RegAt(p, 2), if p.hasImm then Int32(p.imm) else 0, 0)
  }

  predicate IsBranch(e: OpcodeEntry) { e.format.B? || e.format.J? }

  /** An instruction, `ts` being what follows its mnemonic and the token read ahead. */
  function AssembleInst(st: Asm, index: Index, ts: Tokens): (a: Advance)
    ensures |a.rest| <= |ts|
  {
    var r := ParseOperands(st, IsBranch(Entry(index)), NO_OPERANDS, ts);
    Advance(Append(st, EncodeInstruction(Instantiate(Entry(index), OperandsOf(r.0))).bytes), r.1)
  }

  /**
    A name: with a colon behind it a label, else a mnemonic.  The token read ahead to see
    whether it is a colon is not given back.
   */
  function Named(st: Asm, id: string, ts: Tokens): (a: Advance)
    ensures |a.rest| <= |ts|
  {
    var rest := Rest(ts);
    if Peek(ts).kind.Colon? then
      Advance(if st.second then st else st.(labels := st.labels[id := |st.data|]), rest)
    else
      match FindEntry(ToUpper(id), 0)
      case None => Advance(st, SkipLine(rest))
      case Some(i) => AssembleInst(st, i, rest)
  }

  // ---- passes ----

  /** One round of the main loop. */
  function Round(st: Asm, ts: Tokens): (a: Advance)
    requires !Peek(ts).kind.End?
    ensures |a.rest| < |ts|
  {
    var t, rest := Peek(ts), Rest(ts);
    if t.kind.Dot? then Directive(st, rest)
    else if t.kind.Ident? then Named(st, t.text, rest)
    else Advance(st, rest)
  }

  function Pass(st: Asm, ts: Tokens): Asm
    decreases |ts|
  {
    if Peek(ts).kind.End? then st else Pass(Round(st, ts).st, Round(st, ts).rest)
  }

  const START := Asm.Asm(false, map[], TextSec, [], [], [], [], [])

  /** The second pass starts with the labels and the section the first one ended with. */
  function Assembled(ts: Tokens): Asm {
    Commit(Pass(Pass(START, ts).(second := true, data := []), ts))
  }

  // ---- the program ----

  class AsmRun {
    const tokens: Tokens
    var pos: nat
    var second: bool
    var labels: map<string, nat>
    var cur: SecName
    var data: seq<byte>
    var text: seq<byte>
    var dataSec: seq<byte>
    var rodata: seq<byte>
    var globals: seq<Global>

    ghost predicate Valid()
      reads this
    {
      pos <= |tokens|
    }

    ghost function State(): Asm
      reads this
    {
      Asm.Asm(second, labels, cur, data, text, dataSec, rodata, globals)
    }

    ghost function Left(): Tokens
      requires Valid()
      reads this
    {
      tokens[pos..]
    }

    constructor (ts: Tokens)
      ensures Valid() && tokens == ts && pos == 0 && State() == START
    {
      tokens := ts;
      pos, second, labels, cur, data := 0, false, map[], TextSec, [];
      text, dataSec, rodata, globals := [], [], [], [];
    }

    method NextTok() returns (t: AsmToken)
      requires Valid()
      modifies this`pos
      ensures Valid() && t == Peek(old(Left())) && Left() == Rest(old(Left())) && State() == old(State())
    {
      if pos == |tokens| || tokens[pos].kind.End? {
        t := END_TOKEN;
        if pos < |tokens| { t := tokens[pos]; }
      } else {
        t := tokens[pos];
        pos := pos + 1;
      }
    }

    /** Reads on to the end of the line the token `t` is on, then over it. */
    method FinishLine()
      requires Valid()
      modifies this`pos
      ensures Valid() && Left() == SkipLine(old(Left())) && State() == old(State())
    {
      var t := AsmToken(Dot, ".", 0);
      ghost var goal := SkipLine(Left());
      while !t.kind.Newline? && !t.kind.End?
        invariant Valid() && State() == old(State())
        invariant if t.kind.Newline? || t.kind.End? then Left() == goal else SkipLine(Left()) == goal
        decreases if t.kind.Newline? || t.kind.End? then 0 else 1 + |tokens| - pos
      {
        t := NextTok();
      }
    }

    method CommitSection()
      modifies this`text, this`dataSec, this`rodata
      ensures State() == Commit(old(State()))
    {
      match cur
      case TextSec => text := data;
      case DataSec => dataSec := data;
      case RodataSec => rodata := data;
    }

    method Select(name: string)
      modifies this`cur, this`data
      ensures State() == if SectionNamed(name).Some? then old(State()).(cur := SectionNamed(name).value, data := [])
        else old(State())
    {
      if name == "text" { cur, data := TextSec, []; }
      else if name == "data" { cur, data := DataSec, []; }
      else if name == "rodata" { cur, data := RodataSec, []; }
    }

    method RunDirective()
      requires Valid()
      modifies this
      ensures Valid() && Advance(State(), Left()) == Directive(old(State()), old(Left()))
    {
      hide SkipLine; hide Commit; hide DataBytes; hide Declare;
      var dir := NextTok();
      if !dir.kind.Ident? { return; }
      if dir.text == "section" || dir.text == "text" || dir.text == "data" || dir.text == "rodata" {
        if second { CommitSection(); }
        if dir.text == "section" {
          var sn := NextTok();
          if sn.kind.Dot? { sn := NextTok(); }
          Select(sn.text);
        } else {
          Select(dir.text);
        }
        FinishLine();
      } else if dir.text == "global" || dir.text == "globl" {
        var name := NextTok();
        RunGlobal(name.text);
        FinishLine();
      } else if IsData(dir.text) {
        var operand := NextTok();
        RunData(dir.text, operand);
        FinishLine();
      } else {
        FinishLine();
      }
    }

    method RunGlobal(name: string)
      modifies this`globals
      ensures State() == Declare(old(State()), name)
    {
      if second {
        var value := None;
        if name in labels { value := Some(labels[name]); }
        globals := globals + [Global(name, value)];
      }
    }

    method RunData(dir: string, operand: AsmToken)
      requires IsData(dir)
      modifies this`data
      ensures State() == Append(old(State()), DataBytes(dir, operand, second, |old(data)|))
    {
      hide Le; hide Zeros; hide Elf.Chars;
      if dir == "byte" {
        if operand.kind.Number? { EmitBytes([operand.val % 256]); }
      } else if dir == "word" || dir == "short" {
        if operand.kind.Number? { EmitBytes(Le(operand.val % 0x1_0000, 2)); }
      } else if dir == "quad" || dir == "dword" {
        if operand.kind.Number? { EmitBytes(Le(operand.val % TWO64, 8)); }
      } else if dir == "ascii" {
        if operand.kind.Text? { EmitBytes(Elf.Chars(operand.text)); }
      } else if dir == "asciz" || dir == "string" {
        if operand.kind.Text? { EmitBytes(Elf.Chars(operand.text) + [0]); }
      } else {
        if operand.kind.Number? {
          var align := operand.val % TWO64;
          var gap := 0;
          if align != 0 {
            var mis := |data| % align;
            if mis != 0 { gap := align - mis; }
          }
          data := data + Zeros(gap);
        }
      }
    }

    /** The second pass writes the bytes, the first makes room for them. */
    method EmitBytes(b: seq<byte>)
      modifies this`data
      ensures State() == Append(old(State()), Bytes(second, b))
    {
      if second {
        data := data + b;
      } else {
        data := data + Zeros(|b|);
      }
    }

    /** The operand loop: three registers at most, one immediate. */
    method ReadOperands(branch: bool) returns (p: Parsed)
      requires Valid()
      modifies this`pos
      ensures Valid() && State() == old(State())
        && (p, Left()) == ParseOperands(State(), branch, NO_OPERANDS, old(Left()))
    {
      hide IdentOperand; hide MinusOperand;
      p := NO_OPERANDS;
      ghost var goal := ParseOperands(State(), branch, p, Left());
      while true
        invariant Valid() && State() == old(State())
        invariant ParseOperands(State(), branch, p, Left()) == goal
        decreases |tokens| - pos
      {
        var ot := NextTok();
        if ot.kind.Newline? || ot.kind.End? { return; }
        if ot.kind.Minus? {
          var nt := NextTok();
          p := ReadMinus(p, nt);
        } else if ot.kind.Plus? {
          var nt := NextTok();
          if nt.kind.Number? { p := WithImm(p, nt.val); }
        } else if ot.kind.Number? {
          p := WithImm(p, ot.val);
        } else if ot.kind.Ident? {
          p := ReadName(branch, p, ot.text);
        }
      }
    }

    method ReadMinus(p: Parsed, nt: AsmToken) returns (q: Parsed)
      ensures q == MinusOperand(State(), p, nt)
    {
      q := p;
      if nt.kind.Number? {
        q := WithImm(q, -nt.val);
      } else if nt.kind.Ident? {
        if nt.text in labels { q := q.(imm := -(labels[nt.text] as int)); }
        q := q.(hasImm := true);
      }
    }

    method ReadName(branch: bool, p: Parsed, name: string) returns (q: Parsed)
      ensures q == IdentOperand(State(), branch, p, name)
    {
      hide ParseReg;
      q := p;
      var reg := ParseReg(name);
      if reg >= 0 && |p.regs| < 3 {
        q := q.(regs := q.regs + [reg]);
      } else {
        if name in labels {
          var labelOff := labels[name];
          if second && branch {
            q := q.(imm := labelOff - |data|);
          } else {
            q := q.(imm := labelOff);
          }
        }
        q := q.(hasImm := true);
      }
    }

    method FindOpcode(id: string) returns (r: Option<Index>)
      ensures r == FindEntry(ToUpper(id), 0)
    {
      hide Entry;
      var upper := ToUpper(id);
      for i := 0 to OPCODE_COUNT
        invariant FindEntry(upper, 0) == FindEntry(upper, i)
      {
        if upper == Entry(i).mnemonic { return Some(i); }
      }
      return None;
    }

    method RunNamed(id: string)
      requires Valid()
      modifies this
      ensures Valid() && Advance(State(), Left()) == Named(old(State()), id, old(Left()))
    {
      hide Entry; hide SkipLine; hide ParseOperands; hide FindEntry; hide EncodeInstruction; hide ToUpper;
      var next := NextTok();
      if next.kind.Colon? {
        if !second { labels := labels[id := |data|]; }
        return;
      }
      var entry := FindOpcode(id);
      if entry.None? {
        FinishLine();
        return;
      }
      var e := Entry(entry.value);
      var p := ReadOperands(e.format.B? || e.format.J?);
      var rd := if |p.regs| > 0 then p.regs[0] else 0;
      var rs1 := if |p.regs| > 1 then p.regs[1] else 0;
      var rs2 := if |p.regs| > 2 then p.regs[2] else 0;
      var ops := Operands(rd, rs1, rs2, if p.hasImm then Int32(p.imm) else 0, 0);
      var res := EncodeInstruction(Instantiate(e, ops));
      data := data + res.bytes;
    }

    method RunPass()
      requires Valid()
      modifies this
      ensures Valid() && State() == Pass(old(State()), old(Left()))
    {
      hide Directive; hide Named;
      ghost var goal := Pass(State(), Left());
      while true
        invariant Valid() && Pass(State(), Left()) == goal
        decreases |tokens| - pos
      {
        ghost var before := Left();
        var tok := NextTok();
        if tok.kind.End? { return; }
        if tok.kind.Dot? {
          RunDirective();
        } else if tok.kind.Ident? {
          RunNamed(tok.text);
        }
        assert |Left()| < |before|;
      }
    }

    method Assemble()
      requires Valid() && pos == 0 && State() == START
      modifies this
      ensures Valid() && State() == Assembled(tokens)
    {
      hide Pass; hide Commit;
      assert Left() == tokens;
      RunPass();
      pos, second, data := 0, true, [];
      assert Left() == tokens;
      RunPass();
      CommitSection();
    }
  }

  /** Both passes over a token list. */
  method AssembleText(ts: Tokens) returns (code: seq<byte>)
    ensures code == Assembled(ts).text
  {
    var run := new AsmRun(ts);
    run.Assemble();
    code := run.text;
  }
}
