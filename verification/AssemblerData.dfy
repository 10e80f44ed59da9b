/**
  Data directives over whole assemblies: a section is its lines' bytes one after the other, and
  those of a directive are the number, string or padding it stands for; and which data lines
  leave nothing.
 */
module AssemblerData {
  import opened Ast
  import opened Words
  import opened Encoder
  import opened Assembler
  import opened EncoderTheorems
  import opened AssemblerListing
  import opened AssemblerSections
  import Elf

  // ---- reading data back ----

  /** What the bytes of a data directive at offset `at` say. */
  predicate Says(d: Datum, at: nat, b: seq<byte>) {
    match d
    case Value(dir, v) =>
      if dir == "byte" then |b| == 1 && FromLe(b) == v % 0x100
      else if dir == "word" || dir == "short" then |b| == 2 && FromLe(b) == v % 0x1_0000
      else |b| == 8 && FromLe(b) == v % 0x1_0000_0000_0000_0000
    case Chars(dir, text) =>
      |b| == |text| + (if dir == "ascii" then 0 else 1)
      && (forall i | 0 <= i < |text| :: b[i] == text[i] as int % 256)
      && (dir != "ascii" ==> b[|text|] == 0)
    case Align(n) =>
      var size := n % 0x1_0000_0000_0000_0000;
      |b| < size && (forall i | 0 <= i < |b| :: b[i] == 0) && (at + |b|) % size == 0
  }

  lemma DatumSays(d: Datum, at: nat)
    requires ProperDatum(d)
    ensures Says(d, at, DatumBytes(d, at))
  {
    match d
    case Value(dir, v) => ValueSays(dir, v);
    case Chars(_, _) =>
    case Align(n) => GapAligns(at, n % TWO64);
  }

  lemma ValueSays(dir: string, v: int)
    requires ValueSize(dir) > 0
    ensures Says(Value(dir, v), 0, Le(v % Pow256(ValueSize(dir)), ValueSize(dir)))
  {
    var k := ValueSize(dir);
    Pow256Values();
    FromLeOfLe(v % Pow256(k), k);
    hide Le; hide FromLe; hide Pow256;
  }

  lemma GapAligns(at: nat, n: nat)
    requires n > 0
    ensures Gap(at, n) < n && (at + Gap(at, n)) % n == 0
  {
    if at % n != 0 { Elf.NextMultiple(at, n); }
  }

  /** There is only one way to say it. */
  lemma SaidOnce(d: Datum, at: nat, b: seq<byte>, c: seq<byte>)
    requires ProperDatum(d) && Says(d, at, b) && Says(d, at, c)
    ensures b == c
  {
    match d
    case Value(dir, v) =>
      LeOfFromLe(b);
      LeOfFromLe(c);
    case Chars(dir, text) =>
    case Align(n) =>
      var size := n % TWO64;
      SameGap(at, |b|, |c|, size);
  }

  lemma SameGap(at: nat, j: nat, k: nat, n: nat)
    requires j < n && k < n && (at + j) % n == 0 && (at + k) % n == 0
    ensures j == k
  {
    var p, q := (at + j) / n, (at + k) / n;
    assert at + j == n * p && at + k == n * q;
    assert n * (p - q) == j - k by { assert n * (p - q) == n * p - n * q; }
    if p > q { MulAtLeast(n, p - q); }
    if q > p { MulAtLeast(n, q - p); assert n * (q - p) == -(n * (p - q)); }
  }

  // ---- sections ----

  function Flatten(parts: seq<seq<byte>>): seq<byte> {
    if parts == [] then [] else Flatten(parts[..|parts| - 1]) + parts[|parts| - 1]
  }

  /** The bytes of one line at offset `at`. */
  predicate ItemSays(it: Item, at: nat, b: seq<byte>, offsets: string -> Option<nat>) {
    match it
    case Code(x) => b == EncoderTheorems.Bytes(x)
    case Def(_) => b == []
    case Jump(x, target) => offsets(target).Some? && b == EncodeWith(x, offsets(target).value - at)
    case Data(d) => Says(d, at, b)
  }

  /** The parts are the bytes of the lines, each where the ones before it end. */
  predicate Lines(items: seq<Item>, parts: seq<seq<byte>>, offsets: string -> Option<nat>) {
    |parts| == |items|
    && forall k | 0 <= k < |items| :: ItemSays(items[k], |Flatten(parts[..k])|, parts[k], offsets)
  }

  lemma {:induction false} ResolvedAppends(items: seq<Item>, it: Item, at: nat, offsets: string -> Option<nat>)
    requires Closed(items + [it], offsets)
    ensures Closed(items, offsets) && (it.Jump? ==> offsets(it.target).Some?)
    ensures var before := Resolved(items, at, offsets);
      Resolved(items + [it], at, offsets) == before + ItemBytes(it, at + |before|, offsets)
    decreases |items|
  {
    hide ItemBytes; hide SizeOfItem; hide Resolved;
    assert it in items + [it] && forall x | x in items :: x in items + [it];
    if items == [] {
      assert items + [it] == [it];
      ResolvedNothing(at, offsets);
      ResolvedOne(it, at, offsets);
      assert Resolved(items, at, offsets) == [];
      assert [] + ItemBytes(it, at, offsets) == ItemBytes(it, at, offsets);
    } else {
      ResolvedFirst(items + [it], at, offsets);
      assert (items + [it])[0] == items[0] && (items + [it])[1..] == items[1..] + [it];
      ResolvedFirst(items, at, offsets);
      ItemLength(items[0], at, offsets);
      var size := SizeOfItem(items[0], at);
      ResolvedAppends(items[1..], it, at + size, offsets);
      var b, more := ItemBytes(items[0], at, offsets), Resolved(items[1..], at + size, offsets);
      Joining(b, more, ItemBytes(it, at + |b| + |more|, offsets));
    }
  }

  lemma ResolvedOne(it: Item, at: nat, offsets: string -> Option<nat>)
    requires Closed([it], offsets)
    ensures (it.Jump? ==> offsets(it.target).Some?) && Resolved([it], at, offsets) == ItemBytes(it, at, offsets)
  {
    hide ItemBytes; hide SizeOfItem; hide Resolved;
    ResolvedFirst([it], at, offsets);
    ResolvedNothing(at + SizeOfItem(it, at), offsets);
    assert [it][0] == it && [it][1..] == [];
    assert ItemBytes(it, at, offsets) + [] == ItemBytes(it, at, offsets);
  }

  /** The bytes of a listing split into those of its lines. */
  lemma {:induction false} ResolvedSplits(items: seq<Item>, offsets: string -> Option<nat>)
    returns (parts: seq<seq<byte>>)
    requires AllProper(items) && Closed(items, offsets)
    ensures Lines(items, parts, offsets) && Flatten(parts) == Resolved(items, 0, offsets)
    decreases |items|
  {
    hide *;
    if items == [] {
      parts := [];
      NoLines(offsets);
    } else {
      var n := |items| - 1;
      var init, it := items[..n], items[n];
      assert items == init + [it];
      ResolvedAppends(init, it, 0, offsets);
      ProperParts(init, it);
      var ps := ResolvedSplits(init, offsets);
      var at := |Flatten(ps)|;
      var b := ItemBytes(it, at, offsets);
      BytesSay(it, at, offsets);
      parts := ps + [b];
      LinesAppend(init, ps, it, b, offsets);
    }
  }

  lemma NoLines(offsets: string -> Option<nat>)
    ensures Lines([], [], offsets) && Flatten([]) == Resolved([], 0, offsets)
  {
  }

  lemma ProperParts(items: seq<Item>, it: Item)
    requires AllProper(items + [it])
    ensures AllProper(items) && Proper(it)
  {
    hide Proper;
    assert it in items + [it] && forall x | x in items :: x in items + [it];
  }

  lemma LinesAppend(items: seq<Item>, parts: seq<seq<byte>>, it: Item, b: seq<byte>, offsets: string -> Option<nat>)
    requires Lines(items, parts, offsets) && ItemSays(it, |Flatten(parts)|, b, offsets)
    ensures Lines(items + [it], parts + [b], offsets) && Flatten(parts + [b]) == Flatten(parts) + b
  {
    hide ItemSays;
    var all := parts + [b];
    assert all[..|parts|] == parts;
    assert Flatten(all) == Flatten(parts) + b;
    hide Flatten;
    forall k | 0 <= k < |all| ensures ItemSays((items + [it])[k], |Flatten(all[..k])|, all[k], offsets) {
      if k < |parts| { assert all[..k] == parts[..k]; }
    }
  }

  lemma BytesSay(it: Item, at: nat, offsets: string -> Option<nat>)
    requires Proper(it) && (it.Jump? ==> offsets(it.target).Some?)
    ensures ItemSays(it, at, ItemBytes(it, at, offsets), offsets)
  {
    hide EncodeWith; hide EncoderTheorems.Bytes; hide Says; hide DatumBytes;
    if it.Data? { DatumSays(it.d, at); }
  }

  /**
    After assembly a section that is not selected again is the bytes of its lines, one after the
    other: data as it was written, instructions as encoded, branches with their displacement.
   */
  lemma SectionReadsBack(first: seq<Item>, ps: seq<Piece>, k: nat) returns (parts: seq<seq<byte>>)
    requires AllProper(first) && AllPieces(ps) && ClosedProgram(first, ps, ProgramOffsets(first, ps)) && k < |ps|
    requires forall j | k < j < |ps| :: SectionNamed(ps[j].name) != SectionNamed(ps[k].name)
    ensures ps[k] in ps && Contents(Assembled(Program(first, ps)), SectionOf(ps[k])) == Flatten(parts)
    ensures Lines(ps[k].items, parts, ProgramOffsets(first, ps))
  {
    hide Assembled; hide Program; hide SectionNamed; hide ProgramOffsets; hide Resolved; hide Lines; hide Contents;
    hide AllProper;
    assert ps[k] in ps;
    LastPieceWins(first, ps, k);
    parts := ResolvedSplits(ps[k].items, ProgramOffsets(first, ps));
  }

  /** Data alone, without section directives, is read back from `.text`. */
  lemma DataReadsBack(ds: seq<Datum>) returns (parts: seq<seq<byte>>)
    requires forall d | d in ds :: ProperDatum(d)
    ensures var items := seq(|ds|, i requires 0 <= i < |ds| => Data(ds[i]));
      AllProper(items) && Assembled(Listing(items)).text == Flatten(parts)
    ensures |parts| == |ds| && forall k | 0 <= k < |ds| :: Says(ds[k], |Flatten(parts[..k])|, parts[k])
  {
    hide Assembled; hide Listing; hide Says; hide Resolved; hide ProperDatum; hide OffsetOf;
    var items := seq(|ds|, i requires 0 <= i < |ds| => Data(ds[i]));
    forall it | it in items ensures Proper(it) && it.Data? {
      var i :| 0 <= i < |items| && items[i] == it;
      assert ds[i] in ds;
    }
    ListingAssembles(items);
    parts := ResolvedSplits(items, Offsets(items));
    forall k | 0 <= k < |ds| ensures Says(ds[k], |Flatten(parts[..k])|, parts[k]) {
      assert ItemSays(items[k], |Flatten(parts[..k])|, parts[k], Offsets(items));
    }
  }

  // ---- what data lines lose ----

  /** No end of line among these. */
  predicate OneLine(ts: Tokens) { forall t | t in ts :: !t.kind.Newline? && !t.kind.End? }

  lemma {:induction false} SkipsLine(extra: Tokens, rest: Tokens)
    requires OneLine(extra)
    ensures SkipLine(extra + ([NEWLINE_TOKEN] + rest)) == rest
    decreases |extra|
  {
    if extra == [] {
      assert extra + ([NEWLINE_TOKEN] + rest) == [NEWLINE_TOKEN] + rest;
      LineEnds(rest);
    } else {
      var ts := extra + ([NEWLINE_TOKEN] + rest);
      assert Rest(ts) == extra[1..] + ([NEWLINE_TOKEN] + rest);
      SkipsLine(extra[1..], rest);
    }
  }

  /** Only the first operand counts: of `.byte 1, 2, 3` two bytes are lost. */
  lemma MoreOperandsAreLost(st: Asm, d: Datum, extra: Tokens, rest: Tokens)
    requires ProperDatum(d) && OneLine(extra)
    ensures var line := [Lexeme(Dot, ".")] + ([Lexeme(Ident, if d.Align? then "align" else d.dir)] + ([Operand(d)]
        + (extra + ([NEWLINE_TOKEN] + rest))));
      Round(st, line) == Round(st, DatumTokens(d) + rest)
  {
    hide Round; hide DataBytes; hide SkipLine; hide ProperDatum; hide DatumBytes; hide DatumTokens; hide Operand;
    hide AfterItem;
    DataRuns(st, d, rest);
    DatumIs(d, st.second, |st.data|);
    OperandIsNoEnd(d);
    DataLine(st, if d.Align? then "align" else d.dir, Operand(d), extra + ([NEWLINE_TOKEN] + rest));
    SkipsLine(extra, rest);
    AfterDatum(st, d);
  }

  predicate TakesText(dir: string) { dir in {"ascii", "asciz", "string"} }

  /** An operand of the wrong kind leaves nothing: a name, or the minus sign of a negative number. */
  lemma WrongOperandIsLost(st: Asm, dir: string, operand: AsmToken, extra: Tokens, rest: Tokens)
    requires IsData(dir) && OneLine([operand] + extra) && !operand.kind.End?
    requires if TakesText(dir) then !operand.kind.Text? else !operand.kind.Number?
    ensures Round(st, [Lexeme(Dot, ".")] + ([Lexeme(Ident, dir)] + ([operand] + (extra + ([NEWLINE_TOKEN] + rest)))))
      == Advance(st, rest)
  {
    assert operand in [operand] + extra;
    assert OneLine(extra) by {
      forall t | t in extra ensures t in [operand] + extra {}
    }
    hide *;
    SkipsLine(extra, rest);
    DataLine(st, dir, operand, extra + ([NEWLINE_TOKEN] + rest));
    WrongOperandBytes(st, dir, operand);
  }

  lemma WrongOperandBytes(st: Asm, dir: string, operand: AsmToken)
    requires if TakesText(dir) then !operand.kind.Text? else !operand.kind.Number?
    ensures Append(st, DataBytes(dir, operand, st.second, |st.data|)) == st
  {
    hide Le; hide Elf.Chars;
    assert DataBytes(dir, operand, st.second, |st.data|) == [];
    assert st.data + [] == st.data;
  }

  /** A name behind a dot never becomes a label, whatever follows it. */
  lemma DottedLabelsAreLost(st: Asm, name: string, ts: Tokens)
    ensures Round(st, [Lexeme(Dot, ".")] + ([Lexeme(Ident, name)] + ts)).st.labels == st.labels
  {
    hide DataBytes; hide SkipLine; hide SectionNamed; hide IsData; hide IsGlobal; hide SectionOperand; hide Round;
    DotRound(st, [Lexeme(Ident, name)] + ts);
  }

  /** And unless it is a directive its line is lost with it: the strings of generated code are. */
  lemma DottedLineIsLost(st: Asm, name: string, ts: Tokens)
    requires name != "section" && SectionNamed(name).None? && !IsGlobal(name) && !IsData(name)
    ensures Round(st, [Lexeme(Dot, ".")] + ([Lexeme(Ident, name)] + ts)) == Advance(st, SkipLine(ts))
  {
    hide DataBytes; hide SkipLine; hide SectionNamed; hide IsData; hide IsGlobal; hide SectionOperand; hide Round;
    DotRound(st, [Lexeme(Ident, name)] + ts);
    assert Rest([Lexeme(Ident, name)] + ts) == ts;
  }
}
