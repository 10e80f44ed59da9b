/**
  The two passes visit the same positions with the same section sizes, so every label has in
  the second pass the offset the first one gave it.
 */
module AssemblerTheorems {
  import opened Ast
  import opened Words
  import opened Encoder
  import opened Assembler
  import EncoderTheorems

  // ---- sizes ----

  function EncodedLength(i: Index): nat { if Entry(i).encoding.Escape32? then 8 else 4 }

  /** The size of an instruction depends on its table entry alone. */
  lemma EncodedSize(i: Index, ops: Operands)
    ensures |EncodeInstruction(Instantiate(Entry(i), ops)).bytes| == EncodedLength(i)
  {
    hide Entry; hide Payload; hide Le; hide Uleb128;
    EncoderTheorems.EntryShape(i);
    if Entry(i).encoding.Escape32? {
      EncoderTheorems.EscapeHeader(Entry(i).opcode);
      HeadSize(Entry(i).opcode);
    }
  }

  lemma HeadSize(opcode: nat)
    requires 0x80 <= opcode < 0x100
    ensures |Uleb128(opcode)| == 2
  {
    assert Uleb128(opcode) == [opcode % 0x80 + 0x80] + Uleb128(opcode / 0x80);
  }

  // ---- the passes in step ----

  /** How far the operands reach does not depend on the state. */
  lemma {:induction false} OperandsEndAlike(st: Asm, su: Asm, b: bool, p: Parsed, q: Parsed, ts: Tokens)
    ensures ParseOperands(st, b, p, ts).1 == ParseOperands(su, b, q, ts).1
    decreases |ts|
  {
    hide IdentOperand; hide MinusOperand; hide PlusOperand;
    var t, rest := Peek(ts), Rest(ts);
    if t.kind.End? || t.kind.Newline? {
    } else if t.kind.Minus? {
      OperandsEndAlike(st, su, b, MinusOperand(st, p, Peek(rest)), MinusOperand(su, q, Peek(rest)), Rest(rest));
    } else if t.kind.Plus? {
      OperandsEndAlike(st, su, b, PlusOperand(p, Peek(rest)), PlusOperand(q, Peek(rest)), Rest(rest));
    } else if t.kind.Number? {
      OperandsEndAlike(st, su, b, WithImm(p, t.val), WithImm(q, t.val), rest);
    } else if t.kind.Ident? {
      OperandsEndAlike(st, su, b, IdentOperand(st, b, p, t.text), IdentOperand(su, b, q, t.text), rest);
    } else {
      OperandsEndAlike(st, su, b, p, q, rest);
    }
  }

  lemma DataSizesAgree(dir: string, operand: AsmToken, b: bool, c: bool, size: nat)
    ensures |DataBytes(dir, operand, b, size)| == |DataBytes(dir, operand, c, size)|
  {
    hide Le; hide AlignGap;
  }

  predicate SameSize(st: Asm, su: Asm) { |st.data| == |su.data| }

  lemma DirectivesAgree(st: Asm, su: Asm, ts: Tokens)
    requires SameSize(st, su)
    ensures Directive(st, ts).rest == Directive(su, ts).rest && SameSize(Directive(st, ts).st, Directive(su, ts).st)
  {
    hide SkipLine; hide DataBytes; hide IsData; hide IsGlobal;
    var rest := Rest(ts);
    DataSizesAgree(Peek(ts).text, Peek(rest), st.second, su.second, |st.data|);
  }

  lemma NamesAgree(st: Asm, su: Asm, id: string, ts: Tokens)
    requires SameSize(st, su)
    ensures Named(st, id, ts).rest == Named(su, id, ts).rest && SameSize(Named(st, id, ts).st, Named(su, id, ts).st)
  {
    hide SkipLine; hide Entry; hide FindEntry; hide ToUpper; hide ParseOperands; hide EncodeInstruction;
    hide Instantiate;
    var rest, e := Rest(ts), FindEntry(ToUpper(id), 0);
    if e.Some? {
      var b := IsBranch(Entry(e.value));
      OperandsEndAlike(st, su, b, NO_OPERANDS, NO_OPERANDS, rest);
      EncodedSize(e.value, OperandsOf(ParseOperands(st, b, NO_OPERANDS, rest).0));
      EncodedSize(e.value, OperandsOf(ParseOperands(su, b, NO_OPERANDS, rest).0));
    }
  }

  /** Two states with as many bytes go on to the same position with as many bytes. */
  lemma RoundsAgree(st: Asm, su: Asm, ts: Tokens)
    requires SameSize(st, su) && !Peek(ts).kind.End?
    ensures Round(st, ts).rest == Round(su, ts).rest && SameSize(Round(st, ts).st, Round(su, ts).st)
  {
    hide Directive; hide Named;
    DirectivesAgree(st, su, Rest(ts));
    NamesAgree(st, su, Peek(ts).text, Rest(ts));
  }

  // ---- traces ----

  /** A position the main loop visits, with the bytes of the current section so far. */
  datatype Visit = Visit(at: Tokens, size: nat)

  function Trace(st: Asm, ts: Tokens): seq<Visit>
    decreases |ts|
  {
    if Peek(ts).kind.End? then [] else [Visit(ts, |st.data|)] + Trace(Round(st, ts).st, Round(st, ts).rest)
  }

  /** Both passes make the same visits, whatever the tokens are. */
  lemma {:induction false} TracesAgree(st: Asm, su: Asm, ts: Tokens)
    requires SameSize(st, su)
    ensures Trace(st, ts) == Trace(su, ts) && SameSize(Pass(st, ts), Pass(su, ts))
    decreases |ts|
  {
    hide Round; hide SameSize;
    if !Peek(ts).kind.End? {
      RoundsAgree(st, su, ts);
      SizesEqual(st, su);
      TracesAgree(Round(st, ts).st, Round(su, ts).st, Round(st, ts).rest);
    }
  }

  lemma SizesEqual(st: Asm, su: Asm)
    requires SameSize(st, su)
    ensures |st.data| == |su.data|
  {
  }

  /** Does the main loop define the label at this position? */
  predicate Defines(ts: Tokens, name: string) {
    Peek(ts).kind.Ident? && Peek(ts).text == name && Peek(Rest(ts)).kind.Colon?
  }

  /** The size at the last definition of the label along the visits. */
  function LastDefinition(vs: seq<Visit>, name: string, otherwise: Option<nat>): Option<nat>
    decreases |vs|
  {
    if vs == [] then otherwise
    else LastDefinition(vs[1..], name, if Defines(vs[0].at, name) then Some(vs[0].size) else otherwise)
  }

  lemma DirectiveKeepsLabels(st: Asm, ts: Tokens)
    ensures Directive(st, ts).st.labels == st.labels && Directive(st, ts).st.second == st.second
  {
    hide SkipLine; hide DataBytes; hide IsData; hide IsGlobal;
  }

  lemma RoundLabels(st: Asm, ts: Tokens, name: string)
    requires !Peek(ts).kind.End?
    ensures var su := Round(st, ts).st;
      su.second == st.second
      && (st.second ==> su.labels == st.labels)
      && (!st.second ==> Lookup(su.labels, name) == if Defines(ts, name) then Some(|st.data|)
        else Lookup(st.labels, name))
  {
    hide Directive; hide SkipLine; hide Entry; hide FindEntry; hide ToUpper; hide ParseOperands;
    hide EncodeInstruction; hide Instantiate;
    DirectiveKeepsLabels(st, Rest(ts));
  }

  /** After a first pass, a label has the size at its last definition. */
  lemma {:induction false} FirstPassLabels(st: Asm, ts: Tokens, name: string)
    requires !st.second
    ensures Lookup(Pass(st, ts).labels, name) == LastDefinition(Trace(st, ts), name, Lookup(st.labels, name))
    decreases |ts|
  {
    hide Round; hide Lookup; hide Defines;
    if !Peek(ts).kind.End? {
      var a := Round(st, ts);
      RoundLabels(st, ts, name);
      FirstPassLabels(a.st, a.rest, name);
      assert ([Visit(ts, |st.data|)] + Trace(a.st, a.rest))[1..] == Trace(a.st, a.rest);
    }
  }

  lemma {:induction false} SecondPassKeepsLabels(st: Asm, ts: Tokens)
    requires st.second
    ensures Pass(st, ts).labels == st.labels
    decreases |ts|
  {
    hide Round;
    if !Peek(ts).kind.End? {
      RoundLabels(st, ts, "");
      SecondPassKeepsLabels(Round(st, ts).st, Round(st, ts).rest);
    }
  }

  lemma {:induction false} OnlyDefinition(vs: seq<Visit>, name: string, k: nat, otherwise: Option<nat>)
    requires k < |vs| && Defines(vs[k].at, name) && forall j | k < j < |vs| :: !Defines(vs[j].at, name)
    ensures LastDefinition(vs, name, otherwise) == Some(vs[k].size)
    decreases |vs|
  {
    hide Defines;
    if k == 0 {
      NoDefinition(vs[1..], name, Some(vs[0].size));
    } else {
      OnlyDefinition(vs[1..], name, k - 1, if Defines(vs[0].at, name) then Some(vs[0].size) else otherwise);
    }
  }

  lemma {:induction false} NoDefinition(vs: seq<Visit>, name: string, otherwise: Option<nat>)
    requires forall j | 0 <= j < |vs| :: !Defines(vs[j].at, name)
    ensures LastDefinition(vs, name, otherwise) == otherwise
    decreases |vs|
  {
    hide Defines;
    if vs != [] { NoDefinition(vs[1..], name, otherwise); }
  }

  /** The state the second pass starts in. */
  function Second(ts: Tokens): Asm { Pass(START, ts).(second := true, data := []) }

  /**
    In the second pass a label, at its last definition, has exactly the value the first pass
    gave it: the number of bytes in front of it in its section.
   */
  lemma LabelIsItsOffset(ts: Tokens, name: string, k: nat)
    requires var vs := Trace(Second(ts), ts);
      k < |vs| && Defines(vs[k].at, name) && forall j | k < j < |vs| :: !Defines(vs[j].at, name)
    ensures Lookup(Second(ts).labels, name) == Some(Trace(Second(ts), ts)[k].size)
  {
    hide Defines; hide Lookup; hide Trace; hide Pass; hide LastDefinition;
    TracesAgree(START, Second(ts), ts);
    FirstPassLabels(START, ts, name);
    OnlyDefinition(Trace(START, ts), name, k, Lookup(START.labels, name));
  }

  /** The state in which a pass makes its `j`-th visit. */
  function StateAt(st: Asm, ts: Tokens, j: nat): Asm
    requires j < |Trace(st, ts)|
    decreases |ts|
  {
    if j == 0 then st else StateAt(Round(st, ts).st, Round(st, ts).rest, j - 1)
  }

  /** A pass is at the size its trace says, and the second pass keeps its labels up to there. */
  lemma {:induction false} StateAtVisit(st: Asm, ts: Tokens, j: nat)
    requires j < |Trace(st, ts)|
    ensures var su := StateAt(st, ts, j);
      |su.data| == Trace(st, ts)[j].size && (st.second ==> su.second && su.labels == st.labels)
    decreases |ts|
  {
    hide Round;
    if j > 0 {
      StateAtVisit(Round(st, ts).st, Round(st, ts).rest, j - 1);
      RoundLabels(st, ts, "");
    }
  }

  /**
    A branch read at visit `j` of the second pass, its label defined last at visit `k`: the
    operand stands for the offset of the label minus the offset of the branch.
   */
  lemma BranchOperandIsDisplacement(ts: Tokens, name: string, k: nat, j: nat, otherwise: int)
    requires var vs := Trace(Second(ts), ts);
      j < |vs| && k < |vs| && Defines(vs[k].at, name) && forall i | k < i < |vs| :: !Defines(vs[i].at, name)
    ensures var vs := Trace(Second(ts), ts);
      |StateAt(Second(ts), ts, j).data| == vs[j].size
      && LabelValue(StateAt(Second(ts), ts, j), true, name, otherwise) == vs[k].size - vs[j].size
  {
    hide Defines; hide Trace; hide Second; hide StateAt;
    SecondIsSecond(ts);
    LabelIsItsOffset(ts, name, k);
    StateAtVisit(Second(ts), ts, j);
  }

  lemma SecondIsSecond(ts: Tokens)
    ensures Second(ts).second
  {
  }
}
