/**
  Code in sections: what each section holds after assembly, for any sequence of section
  directives with code behind them, and which code is kept.
 */
module AssemblerSections {
  import opened Ast
  import opened Words
  import opened Encoder
  import opened Assembler
  import opened AssemblerTheorems
  import opened EncoderTheorems
  import opened AssemblerListing

  // ---- pieces and their tokens ----

  /** The three ways to select a section: `.text`, `.section text` and `.section .text`. */
  datatype Spelling = Short | Long | Dotted

  /** A section directive and the code behind it. */
  datatype Piece = Piece(spelling: Spelling, name: string, items: seq<Item>)

  predicate ProperPiece(p: Piece) { SectionNamed(p.name).Some? && AllProper(p.items) }

  function SectionOf(p: Piece): SecName
    requires ProperPiece(p)
  {
    SectionNamed(p.name).value
  }

  function SelectLine(spelling: Spelling, name: string): Tokens {
    var line := [Lexeme(Ident, name)] + [NEWLINE_TOKEN];
    match spelling
    case Short => [Lexeme(Dot, ".")] + line
    case Long => [Lexeme(Dot, ".")] + ([Lexeme(Ident, "section")] + line)
    case Dotted => [Lexeme(Dot, ".")] + ([Lexeme(Ident, "section")] + ([Lexeme(Dot, ".")] + line))
  }

  predicate AllPieces(ps: seq<Piece>) { forall p | p in ps :: ProperPiece(p) }

  function ListPieces(ps: seq<Piece>): Tokens
    requires AllPieces(ps)
  {
    if ps == [] then []
    else
      assert ps[0] in ps;
      SelectLine(ps[0].spelling, ps[0].name) + (Listing(ps[0].items) + ListPieces(ps[1..]))
  }

  /** Code in front of the first directive, then the pieces. */
  function Program(first: seq<Item>, ps: seq<Piece>): Tokens
    requires AllProper(first) && AllPieces(ps)
  {
    Listing(first) + ListPieces(ps)
  }

  // ---- what it should assemble to ----

  /** The offset of the last definition of a label; every piece starts at offset 0. */
  function OffsetInPieces(ps: seq<Piece>, name: string, otherwise: Option<nat>): Option<nat> {
    if ps == [] then otherwise else OffsetInPieces(ps[1..], name, OffsetOf(ps[0].items, 0, name, otherwise))
  }

  function ProgramOffsets(first: seq<Item>, ps: seq<Piece>): string -> Option<nat> {
    name => OffsetInPieces(ps, name, OffsetOf(first, 0, name, None))
  }

  predicate ClosedProgram(first: seq<Item>, ps: seq<Piece>, offsets: string -> Option<nat>) {
    Closed(first, offsets) && forall p | p in ps :: Closed(p.items, offsets)
  }

  function PieceBytes(p: Piece, offsets: string -> Option<nat>): seq<byte>
    requires Closed(p.items, offsets)
  {
    Resolved(p.items, 0, offsets)
  }

  /** The bytes of the last piece of a section. */
  function LastBytes(ps: seq<Piece>, sec: SecName, offsets: string -> Option<nat>, otherwise: seq<byte>): seq<byte>
    requires AllPieces(ps) && forall p | p in ps :: Closed(p.items, offsets)
  {
    if ps == [] then otherwise
    else
      assert ps[0] in ps;
      LastBytes(ps[1..], sec, offsets, if SectionOf(ps[0]) == sec then PieceBytes(ps[0], offsets) else otherwise)
  }

  function Contents(st: Asm, sec: SecName): seq<byte> {
    match sec
    case TextSec => st.text
    case DataSec => st.dataSec
    case RodataSec => st.rodata
  }

  // ---- passes over pieces ----

  lemma SelectRuns(st: Asm, spelling: Spelling, name: string, rest: Tokens)
    requires SectionNamed(name).Some?
    ensures Pass(st, SelectLine(spelling, name) + rest) == Pass(SelectSection(st, SectionNamed(name)), rest)
  {
    hide SelectSection; hide SectionNamed; hide Round; hide SelectLine;
    SelectRound(st, spelling, name, rest);
    var all := SelectLine(spelling, name) + rest;
    assert Pass(st, all) == Pass(Round(st, all).st, Round(st, all).rest);
  }

  /** The tokens of a directive and what follows, seen from the front. */
  lemma SelectTokens(spelling: Spelling, name: string, rest: Tokens)
    ensures var line := [Lexeme(Ident, name)] + ([NEWLINE_TOKEN] + rest);
      SelectLine(spelling, name) + rest ==
        match spelling
        case Short => [Lexeme(Dot, ".")] + line
        case Long => [Lexeme(Dot, ".")] + ([Lexeme(Ident, "section")] + line)
        case Dotted => [Lexeme(Dot, ".")] + ([Lexeme(Ident, "section")] + ([Lexeme(Dot, ".")] + line))
  {
    var dot, word, id, end := [Lexeme(Dot, ".")], [Lexeme(Ident, "section")], [Lexeme(Ident, name)], [NEWLINE_TOKEN];
    Regrouped(id, end, rest);
    match spelling
    case Short => Regrouped(dot, id + end, rest);
    case Long =>
      Regrouped(word, id + end, rest);
      Regrouped(dot, word + (id + end), rest);
    case Dotted =>
      Regrouped(dot, id + end, rest);
      Regrouped(word, dot + (id + end), rest);
      Regrouped(dot, word + (dot + (id + end)), rest);
  }

  lemma SelectRound(st: Asm, spelling: Spelling, name: string, rest: Tokens)
    requires SectionNamed(name).Some?
    ensures var all := SelectLine(spelling, name) + rest;
      Peek(all).kind.Dot? && Round(st, all) == Advance(SelectSection(st, SectionNamed(name)), rest)
  {
    hide *;
    SelectTokens(spelling, name, rest);
    var line := [Lexeme(Ident, name)] + ([NEWLINE_TOKEN] + rest);
    match spelling
    case Short =>
      DotRound(st, line);
      ShortDirective(st, name, rest);
    case Long =>
      DotRound(st, [Lexeme(Ident, "section")] + line);
      LongDirective(st, name, line, rest);
    case Dotted =>
      DotRound(st, [Lexeme(Ident, "section")] + ([Lexeme(Dot, ".")] + line));
      LongDirective(st, name, [Lexeme(Dot, ".")] + line, rest);
  }

  lemma ShortDirective(st: Asm, name: string, rest: Tokens)
    requires SectionNamed(name).Some?
    ensures Directive(st, [Lexeme(Ident, name)] + ([NEWLINE_TOKEN] + rest)) ==
      Advance(SelectSection(st, SectionNamed(name)), rest)
  {
    hide SelectSection; hide SectionNamed; hide SectionOperand; hide Declare; hide DataBytes;
    var end := [NEWLINE_TOKEN] + rest;
    assert Rest([Lexeme(Ident, name)] + end) == end && Rest(end) == rest;
    SectionIsNoSection(name);
  }

  lemma LongDirective(st: Asm, name: string, operand: Tokens, rest: Tokens)
    requires var line := [Lexeme(Ident, name)] + ([NEWLINE_TOKEN] + rest);
      operand == line || operand == [Lexeme(Dot, ".")] + line
    ensures Directive(st, [Lexeme(Ident, "section")] + operand) == Advance(SelectSection(st, SectionNamed(name)), rest)
  {
    hide SelectSection; hide SectionNamed; hide Declare; hide DataBytes;
    var end := [NEWLINE_TOKEN] + rest;
    var line := [Lexeme(Ident, name)] + end;
    assert Rest([Lexeme(Ident, "section")] + operand) == operand;
    assert Rest(line) == end && Rest(end) == rest && Rest([Lexeme(Dot, ".")] + line) == line;
    assert SectionOperand(operand) == (name, end);
  }

  lemma SectionIsNoSection(name: string)
    ensures SectionNamed(name).Some? ==> name != "section"
  {
    assert |"section"| == 7;
  }

  function AfterPieces(st: Asm, ps: seq<Piece>): Asm
    requires AllPieces(ps)
    decreases |ps|
  {
    if ps == [] then st
    else AfterPieces(AfterItems(SelectSection(st, Some(SectionOf(ps[0]))), ps[0].items), ps[1..])
  }

  /** The main loop takes a program directive by directive. */
  lemma {:induction false} PiecesRun(st: Asm, ps: seq<Piece>)
    requires AllPieces(ps)
    ensures Pass(st, ListPieces(ps)) == AfterPieces(st, ps)
    decreases |ps|
  {
    hide Round; hide SelectSection; hide SelectLine; hide Listing; hide AfterItems; hide SectionNamed; hide AllProper;
    if ps != [] {
      assert ps[0] in ps;
      var more := ListPieces(ps[1..]);
      SelectRuns(st, ps[0].spelling, ps[0].name, Listing(ps[0].items) + more);
      var t := SelectSection(st, SectionNamed(ps[0].name));
      ListingRuns(t, ps[0].items, more);
      PiecesRun(AfterItems(t, ps[0].items), ps[1..]);
    }
  }

  lemma ProgramRuns(st: Asm, first: seq<Item>, ps: seq<Piece>)
    requires AllProper(first) && AllPieces(ps)
    ensures Pass(st, Program(first, ps)) == AfterPieces(AfterItems(st, first), ps)
  {
    hide Pass; hide Listing; hide ListPieces; hide AfterItems; hide AfterPieces; hide AllProper; hide AllPieces;
    ListingRuns(st, first, ListPieces(ps));
    PiecesRun(AfterItems(st, first), ps);
  }

  /** No section holds anything yet. */
  predicate Blank(st: Asm) { st.text == [] && st.dataSec == [] && st.rodata == [] }

  lemma {:induction false} ItemsKeepSections(st: Asm, items: seq<Item>)
    ensures var t := AfterItems(st, items); t.text == st.text && t.dataSec == st.dataSec && t.rodata == st.rodata
    decreases |items|
  {
    hide EncodeWith; hide EncoderTheorems.Bytes; hide LabelValue;
    if items != [] { ItemsKeepSections(AfterItem(st, items[0]), items[1..]); }
  }

  function LastSection(st: Asm, ps: seq<Piece>): SecName
    requires AllPieces(ps)
  {
    if ps == [] then st.cur else assert ps[|ps| - 1] in ps; SectionOf(ps[|ps| - 1])
  }

  /** The first pass finds each label's offset, ends in the last section and fills none. */
  lemma {:induction false} FirstPassPieces(st: Asm, ps: seq<Piece>, name: string)
    requires AllPieces(ps) && !st.second && Blank(st)
    ensures var t := AfterPieces(st, ps);
      Lookup(t.labels, name) == OffsetInPieces(ps, name, Lookup(st.labels, name))
      && !t.second && Blank(t) && t.cur == LastSection(st, ps)
    decreases |ps|
  {
    hide AfterItems; hide OffsetOf; hide SectionNamed; hide Lookup; hide AllProper;
    if ps != [] {
      assert ps[0] in ps;
      var t := SelectSection(st, Some(SectionOf(ps[0])));
      FirstPassOffsets(t, ps[0].items, name);
      ItemsKeepSections(t, ps[0].items);
      var u := AfterItems(t, ps[0].items);
      FirstPassPieces(u, ps[1..], name);
      assert |ps| > 1 ==> ps[1..][|ps| - 2] == ps[|ps| - 1];
    }
  }

  /** Once its current section is committed, a second pass has the last bytes of each section. */
  lemma {:induction false} SecondPassPieces(st: Asm, ps: seq<Piece>, offsets: string -> Option<nat>, sec: SecName)
    requires AllPieces(ps) && forall p | p in ps :: Closed(p.items, offsets)
    requires st.second && forall name :: Lookup(st.labels, name) == offsets(name)
    ensures Contents(Commit(AfterPieces(st, ps)), sec) == LastBytes(ps, sec, offsets, Contents(Commit(st), sec))
    decreases |ps|
  {
    hide AfterItems; hide Resolved; hide Closed; hide SectionNamed; hide Lookup; hide AllProper;
    if ps != [] {
      var p := ps[0];
      assert p in ps;
      var t := SelectSection(st, Some(SectionOf(p)));
      SecondPassBytes(t, p.items, offsets);
      assert [] + PieceBytes(p, offsets) == PieceBytes(p, offsets);
      var u := t.(data := PieceBytes(p, offsets));
      assert AfterItems(t, p.items) == u;
      SecondPassPieces(u, ps[1..], offsets, sec);
    }
  }

  // ---- the theorems ----

  /** Is the section selected by one of the pieces? */
  predicate Selected(ps: seq<Piece>, sec: SecName) {
    exists k :: 0 <= k < |ps| && SectionNamed(ps[k].name) == Some(sec)
  }

  lemma {:induction false} LastBytesSelected(ps: seq<Piece>, sec: SecName,
          offsets: string -> Option<nat>, a: seq<byte>, b: seq<byte>)
    requires AllPieces(ps) && forall p | p in ps :: Closed(p.items, offsets)
    ensures Selected(ps, sec) ==> LastBytes(ps, sec, offsets, a) == LastBytes(ps, sec, offsets, b)
    ensures !Selected(ps, sec) ==> LastBytes(ps, sec, offsets, a) == a
    decreases |ps|
  {
    hide Closed; hide SectionNamed; hide PieceBytes; hide AllProper;
    if ps != [] {
      var p := ps[0];
      assert p in ps;
      if SectionOf(p) == sec {
        LastBytesSelected(ps[1..], sec, offsets, PieceBytes(p, offsets), PieceBytes(p, offsets));
      } else {
        LastBytesSelected(ps[1..], sec, offsets, a, b);
        forall k | 0 <= k < |ps| && SectionNamed(ps[k].name) == Some(sec)
          ensures Selected(ps[1..], sec)
        {
          assert k > 0 && ps[1..][k - 1] == ps[k];
        }
        if Selected(ps[1..], sec) {
          var k :| 0 <= k < |ps[1..]| && SectionNamed(ps[1..][k].name) == Some(sec);
          assert ps[k + 1] == ps[1..][k];
        }
      }
    }
  }

  /**
    Each section ends with the bytes of its last piece and of nothing else.  Code in front of the
    first directive goes to the section selected last, which its piece then replaces; without a
    directive it stays in `.text`.
   */
  lemma ProgramAssembles(first: seq<Item>, ps: seq<Piece>, sec: SecName)
    requires AllProper(first) && AllPieces(ps) && ClosedProgram(first, ps, ProgramOffsets(first, ps))
    ensures var offsets := ProgramOffsets(first, ps);
      Contents(Assembled(Program(first, ps)), sec) ==
        if ps != [] then LastBytes(ps, sec, offsets, [])
        else if sec == TextSec then Resolved(first, 0, offsets) else []
  {
    hide Resolved; hide AfterItems; hide AfterPieces; hide Pass; hide Lookup; hide SectionNamed; hide Program;
    hide OffsetOf; hide OffsetInPieces; hide LastBytes; hide AllProper;
    var offsets := ProgramOffsets(first, ps);
    ProgramRuns(START, first, ps);
    var loaded := AfterItems(START, first);
    ItemsKeepSections(START, first);
    FirstPassOffsets(START, first, "");
    var one := AfterPieces(loaded, ps);
    FirstPassPieces(loaded, ps, "");
    var two := one.(second := true, data := []);
    forall name ensures Lookup(two.labels, name) == offsets(name) {
      FirstPassOffsets(START, first, name);
      EmptyLookup(name);
      FirstPassPieces(loaded, ps, name);
    }
    ProgramRuns(two, first, ps);
    SecondPassBytes(two, first, offsets);
    assert [] + Resolved(first, 0, offsets) == Resolved(first, 0, offsets);
    SecondPassPieces(AfterItems(two, first), ps, offsets, sec);
    FirstCode(two, Resolved(first, 0, offsets), loaded, ps, sec, offsets);
  }

  /** What the code in front leaves: something in the section selected last only. */
  lemma FirstCode(two: Asm, b: seq<byte>, loaded: Asm, ps: seq<Piece>, sec: SecName, offsets: string -> Option<nat>)
    requires AllPieces(ps) && forall p | p in ps :: Closed(p.items, offsets)
    requires Blank(two) && two.cur == LastSection(loaded, ps) && loaded.cur == TextSec
    ensures LastBytes(ps, sec, offsets, Contents(Commit(two.(data := b)), sec)) ==
      if ps != [] then LastBytes(ps, sec, offsets, []) else if sec == TextSec then b else []
  {
    hide Closed; hide SectionNamed; hide PieceBytes; hide AllProper;
    var was := Contents(Commit(two.(data := b)), sec);
    if ps != [] {
      hide LastBytes;
      LastBytesSelected(ps, sec, offsets, was, []);
      if two.cur == sec {
        assert ps[|ps| - 1] in ps;
        assert SectionNamed(ps[|ps| - 1].name) == Some(sec);
        assert Selected(ps, sec);
      }
    }
  }

  /** Selecting a section again throws its earlier bytes away: the piece that is not selected again is what is left. */
  lemma LastPieceWins(first: seq<Item>, ps: seq<Piece>, k: nat)
    requires AllProper(first) && AllPieces(ps) && ClosedProgram(first, ps, ProgramOffsets(first, ps)) && k < |ps|
    requires forall j | k < j < |ps| :: SectionNamed(ps[j].name) != SectionNamed(ps[k].name)
    ensures ps[k] in ps
    ensures Contents(Assembled(Program(first, ps)), SectionOf(ps[k])) == PieceBytes(ps[k], ProgramOffsets(first, ps))
  {
    hide Resolved; hide SectionNamed; hide Program; hide Assembled; hide ProgramOffsets; hide LastBytes; hide AllProper;
    hide Closed;
    assert ps[k] in ps;
    ProgramAssembles(first, ps, SectionOf(ps[k]));
    LastBytesAt(ps, k, ProgramOffsets(first, ps), []);
  }

  lemma {:induction false} LastBytesAt(ps: seq<Piece>, k: nat, offsets: string -> Option<nat>, otherwise: seq<byte>)
    requires AllPieces(ps) && (forall p | p in ps :: Closed(p.items, offsets)) && k < |ps|
    requires forall j | k < j < |ps| :: SectionNamed(ps[j].name) != SectionNamed(ps[k].name)
    ensures ps[k] in ps
    ensures LastBytes(ps, SectionOf(ps[k]), offsets, otherwise) == PieceBytes(ps[k], offsets)
    decreases |ps|
  {
    hide Closed; hide SectionNamed; hide PieceBytes; hide AllProper;
    assert ps[0] in ps && ps[k] in ps;
    var sec := SectionOf(ps[k]);
    if k == 0 {
      LastBytesSelected(ps[1..], sec, offsets, PieceBytes(ps[0], offsets), []);
      forall j | 0 <= j < |ps[1..]| ensures SectionNamed(ps[1..][j].name) != Some(sec) {
        assert ps[j + 1] == ps[1..][j];
      }
    } else {
      assert ps[1..][k - 1] == ps[k];
      forall j | k - 1 < j < |ps[1..]| ensures SectionNamed(ps[1..][j].name) != SectionNamed(ps[1..][k - 1].name) {
        assert ps[1..][j] == ps[j + 1];
      }
      LastBytesAt(ps[1..], k - 1, offsets, if SectionOf(ps[0]) == sec then PieceBytes(ps[0], offsets) else otherwise);
    }
  }

  /**
    Sections each selected once, up front: every section holds exactly its code, every branch,
    forward or backward, holding the offset of its label minus its own.
   */
  lemma SectionsAssemble(ps: seq<Piece>)
    requires AllPieces(ps) && ClosedProgram([], ps, ProgramOffsets([], ps))
    requires forall j, k | 0 <= j < k < |ps| :: SectionNamed(ps[j].name) != SectionNamed(ps[k].name)
    ensures forall k | 0 <= k < |ps| ::
      ps[k] in ps
      && Contents(Assembled(ListPieces(ps)), SectionOf(ps[k])) == PieceBytes(ps[k], ProgramOffsets([], ps))
  {
    hide Resolved; hide SectionNamed; hide Assembled; hide ProgramOffsets; hide PieceBytes; hide ListPieces;
    hide Closed;
    assert Program([], ps) == ListPieces(ps);
    forall k | 0 <= k < |ps|
      ensures ps[k] in ps
        && Contents(Assembled(ListPieces(ps)), SectionOf(ps[k])) == PieceBytes(ps[k], ProgramOffsets([], ps))
    {
      LastPieceWins([], ps, k);
    }
  }

  // ---- when all code is kept ----

  /** Nothing but labels, empty strings and alignments where the code stands aligned. */
  predicate NoBytes(items: seq<Item>, at: nat) {
    forall it | it in items :: it.Def? || (it.Data? && Nothing(it.d, at))
  }

  predicate Nothing(d: Datum, at: nat) {
    match d
    case Value(dir, _) => ValueSize(dir) == 0
    case Chars(dir, text) => dir == "ascii" && text == ""
    case Align(n) => n % TWO64 == 0 || at % (n % TWO64) == 0
  }

  lemma ItemLength(it: Item, at: nat, offsets: string -> Option<nat>)
    requires it.Jump? ==> offsets(it.target).Some?
    ensures |ItemBytes(it, at, offsets)| == SizeOfItem(it, at)
    ensures SizeOfItem(it, at) == 0 <==> it.Def? || (it.Data? && Nothing(it.d, at))
  {
    hide Entry; hide EncodeInstruction; hide Instantiate; hide Le;
    match it
    case Code(x) => EncodedSize(x.index, x.ops);
    case Def(_) =>
    case Jump(x, target) => EncodedSize(x.index, x.ops.(imm := offsets(target).value - at));
    case Data(d) =>
  }

  lemma {:induction false} ResolvedIsEmpty(items: seq<Item>, at: nat, offsets: string -> Option<nat>)
    requires Closed(items, offsets)
    ensures Resolved(items, at, offsets) == [] <==> NoBytes(items, at)
    decreases |items|
  {
    hide ItemBytes; hide SizeOfItem; hide Closed; hide Resolved; hide Nothing;
    if items != [] {
      var it := items[0];
      ResolvedFirst(items, at, offsets);
      ItemLength(it, at, offsets);
      ResolvedIsEmpty(items[1..], at + SizeOfItem(it, at), offsets);
      assert it in items && forall x | x in items :: x == it || x in items[1..];
    } else {
      ResolvedNothing(at, offsets);
    }
  }

  /** The bytes of all pieces of a section, one after the other. */
  function Joined(ps: seq<Piece>, sec: SecName, offsets: string -> Option<nat>): seq<byte>
    requires AllPieces(ps) && forall p | p in ps :: Closed(p.items, offsets)
  {
    if ps == [] then []
    else
      assert ps[0] in ps;
      (if SectionOf(ps[0]) == sec then PieceBytes(ps[0], offsets) else []) + Joined(ps[1..], sec, offsets)
  }

  /** The section of piece `k` is selected again later. */
  predicate Reselected(ps: seq<Piece>, k: nat)
    requires k < |ps|
  {
    exists j :: k < j < |ps| && SectionNamed(ps[j].name) == SectionNamed(ps[k].name)
  }

  /** Pieces of this section that are selected again hold no code. */
  predicate NothingLost(ps: seq<Piece>, sec: SecName) {
    forall k | 0 <= k < |ps| && SectionNamed(ps[k].name) == Some(sec) && Reselected(ps, k) :: NoBytes(ps[k].items, 0)
  }

  lemma {:induction false} JoinedIsLastExactlyWhen(ps: seq<Piece>, sec: SecName, offsets: string -> Option<nat>)
    requires AllPieces(ps) && forall p | p in ps :: Closed(p.items, offsets)
    ensures |LastBytes(ps, sec, offsets, [])| <= |Joined(ps, sec, offsets)|
    ensures Joined(ps, sec, offsets) == LastBytes(ps, sec, offsets, []) <==> NothingLost(ps, sec)
    ensures !Selected(ps, sec) ==> Joined(ps, sec, offsets) == []
    decreases |ps|
  {
    hide Closed; hide SectionNamed; hide AllProper; hide Resolved;
    if ps != [] {
      var p, more := ps[0], ps[1..];
      assert p in ps;
      JoinedIsLastExactlyWhen(more, sec, offsets);
      TailNothingLost(ps, sec);
      TailSelected(ps, sec);
      if SectionOf(p) == sec {
        var b := PieceBytes(p, offsets);
        LastBytesSelected(more, sec, offsets, b, []);
        ResolvedIsEmpty(p.items, 0, offsets);
        assert Selected(ps, sec) by { assert SectionNamed(ps[0].name) == Some(sec); }
        if Selected(more, sec) {
          assert Joined(ps, sec, offsets) == b + Joined(more, sec, offsets);
          if b + Joined(more, sec, offsets) == LastBytes(more, sec, offsets, []) {
            assert |b| == 0;
            assert b + Joined(more, sec, offsets) == Joined(more, sec, offsets);
          }
          if b == [] { assert b + Joined(more, sec, offsets) == Joined(more, sec, offsets); }
        }
      }
    }
  }

  lemma TailSelected(ps: seq<Piece>, sec: SecName)
    requires AllPieces(ps) && ps != []
    ensures Selected(ps, sec) <==> SectionNamed(ps[0].name) == Some(sec) || Selected(ps[1..], sec)
  {
    hide SectionNamed; hide AllPieces;
    if Selected(ps[1..], sec) {
      var k :| 0 <= k < |ps[1..]| && SectionNamed(ps[1..][k].name) == Some(sec);
      assert ps[k + 1] == ps[1..][k];
    }
    if Selected(ps, sec) && SectionNamed(ps[0].name) != Some(sec) {
      var k :| 0 <= k < |ps| && SectionNamed(ps[k].name) == Some(sec);
      assert ps[1..][k - 1] == ps[k];
    }
  }

  lemma TailNothingLost(ps: seq<Piece>, sec: SecName)
    requires AllPieces(ps) && ps != []
    ensures NothingLost(ps, sec) <==>
      (NothingLost(ps[1..], sec)
       && (SectionNamed(ps[0].name) == Some(sec) && Selected(ps[1..], sec) ==> NoBytes(ps[0].items, 0)))
  {
    hide SectionNamed; hide AllPieces; hide NoBytes;
    var more := ps[1..];
    forall k: nat | k < |more| ensures Reselected(more, k) <==> Reselected(ps, k + 1) {
      ReselectedInTail(ps, k);
    }
    if SectionNamed(ps[0].name) == Some(sec) {
      if Selected(more, sec) {
        var j :| 0 <= j < |more| && SectionNamed(more[j].name) == Some(sec);
        assert ps[j + 1] == more[j];
        assert Reselected(ps, 0);
      }
      if Reselected(ps, 0) {
        var j :| 0 < j < |ps| && SectionNamed(ps[j].name) == SectionNamed(ps[0].name);
        assert more[j - 1] == ps[j];
        assert Selected(more, sec);
      }
    }
    if NothingLost(ps, sec) {
      forall k | 0 <= k < |more| && SectionNamed(more[k].name) == Some(sec) && Reselected(more, k)
        ensures NoBytes(more[k].items, 0)
      {
        assert ps[k + 1] == more[k] && Reselected(ps, k + 1);
      }
    }
    if NothingLost(more, sec) {
      forall k | 0 < k < |ps| && SectionNamed(ps[k].name) == Some(sec) && Reselected(ps, k)
        ensures NoBytes(ps[k].items, 0)
      {
        assert ps[k] == more[k - 1] && Reselected(more, k - 1);
      }
    }
  }

  lemma ReselectedInTail(ps: seq<Piece>, k: nat)
    requires k + 1 < |ps|
    ensures Reselected(ps[1..], k) <==> Reselected(ps, k + 1)
  {
    hide SectionNamed;
    var more := ps[1..];
    if Reselected(more, k) {
      var j :| k < j < |more| && SectionNamed(more[j].name) == SectionNamed(more[k].name);
      assert ps[j + 1] == more[j];
    }
    if Reselected(ps, k + 1) {
      var j :| k + 1 < j < |ps| && SectionNamed(ps[j].name) == SectionNamed(ps[k + 1].name);
      assert more[j - 1] == ps[j];
    }
  }

  /** All the code written for a section: what stands in front of the first directive is meant for `.text`. */
  function Written(first: seq<Item>, ps: seq<Piece>, sec: SecName, offsets: string -> Option<nat>): seq<byte>
    requires AllPieces(ps) && ClosedProgram(first, ps, offsets)
  {
    (if sec == TextSec then Resolved(first, 0, offsets) else []) + Joined(ps, sec, offsets)
  }

  /**
    Every section keeps all its code exactly when no code stands in front of a first directive
    and no code in a piece whose section is selected again.
   */
  lemma CodeKeptExactlyWhen(first: seq<Item>, ps: seq<Piece>)
    requires AllProper(first) && AllPieces(ps) && ClosedProgram(first, ps, ProgramOffsets(first, ps))
    ensures var offsets := ProgramOffsets(first, ps);
      (forall sec :: Contents(Assembled(Program(first, ps)), sec) == Written(first, ps, sec, offsets))
      <==> (ps != [] ==> NoBytes(first, 0)) && forall sec :: NothingLost(ps, sec)
  {
    hide Resolved; hide Program; hide Assembled; hide ProgramOffsets; hide LastBytes; hide AllProper; hide Closed;
    hide Joined; hide NothingLost; hide NoBytes; hide Contents;
    var offsets := ProgramOffsets(first, ps);
    forall sec
      ensures Contents(Assembled(Program(first, ps)), sec) == Written(first, ps, sec, offsets)
        <==> (ps != [] && sec == TextSec ==> NoBytes(first, 0)) && NothingLost(ps, sec)
    {
      SectionKeptExactlyWhen(first, ps, sec);
    }
    if forall sec :: Contents(Assembled(Program(first, ps)), sec) == Written(first, ps, sec, offsets) {
      assert Contents(Assembled(Program(first, ps)), TextSec) == Written(first, ps, TextSec, offsets);
    }
  }

  lemma SectionKeptExactlyWhen(first: seq<Item>, ps: seq<Piece>, sec: SecName)
    requires AllProper(first) && AllPieces(ps) && ClosedProgram(first, ps, ProgramOffsets(first, ps))
    ensures var offsets := ProgramOffsets(first, ps);
      Contents(Assembled(Program(first, ps)), sec) == Written(first, ps, sec, offsets)
      <==> (ps != [] && sec == TextSec ==> NoBytes(first, 0)) && NothingLost(ps, sec)
  {
    hide Resolved; hide Program; hide Assembled; hide ProgramOffsets; hide AllProper;
    hide NothingLost; hide NoBytes; hide Contents;
    var offsets := ProgramOffsets(first, ps);
    ProgramAssembles(first, ps, sec);
    JoinedIsLastExactlyWhen(ps, sec, offsets);
    ResolvedIsEmpty(first, 0, offsets);
    NoPiecesNothingLost(sec);
    if ps == [] {
      var b := if sec == TextSec then Resolved(first, 0, offsets) else [];
      assert Joined(ps, sec, offsets) == [] && b + [] == b;
    } else {
      hide LastBytes; hide Joined;
      var b := if sec == TextSec then Resolved(first, 0, offsets) else [];
      var joined := Joined(ps, sec, offsets);
      if b == [] { assert b + joined == joined; }
      if b + joined == LastBytes(ps, sec, offsets, []) {
        assert |b| == 0;
        assert b + joined == joined;
      }
    }
  }

  lemma NoPiecesNothingLost(sec: SecName)
    ensures NothingLost([], sec)
  {
  }

  /** When every piece holds code, nothing of the pieces is lost exactly when no section is selected twice. */
  lemma NothingLostExactlyWhenDistinct(ps: seq<Piece>)
    requires AllPieces(ps) && forall p | p in ps :: !NoBytes(p.items, 0)
    ensures (forall sec :: NothingLost(ps, sec))
      <==> forall j, k | 0 <= j < k < |ps| :: SectionNamed(ps[j].name) != SectionNamed(ps[k].name)
  {
    hide SectionNamed; hide NoBytes; hide AllProper;
    if forall sec :: NothingLost(ps, sec) {
      forall j, k | 0 <= j < k < |ps| ensures SectionNamed(ps[j].name) != SectionNamed(ps[k].name) {
        assert ps[j] in ps;
        assert NothingLost(ps, SectionOf(ps[j]));
        assert !Reselected(ps, j);
      }
    }
  }
}
