/**
  The symbol table, string table and relocation table of the file, read back.
 */
module ElfSymbols {
  import opened Ast
  import opened Words
  import opened Elf
  import opened ElfTheorems
  import opened ElfImage

  // ---- symbols ----

  function ReadSym(tab: seq<byte>, i: nat): Option<Sym> {
    var p := SYM_SIZE * i;
    if p + SYM_SIZE > |tab| then None
    else Some(Sym(Word(tab, p, 4), Word(tab, p + 4, 1), Word(tab, p + 6, 2), Word(tab, p + 8, 8), Word(tab, p + 16, 8)))
  }

  predicate SymFits(s: Sym) {
    s.name < TWO32 && s.info < 256 && s.shndx < 0x1_0000 && s.value < TWO64 && s.size < TWO64
  }

  lemma SymWords(s: Sym)
    requires SymFits(s)
    ensures var b := SymBytes(s);
      Word(b, 0, 4) == s.name && Word(b, 4, 1) == s.info && Word(b, 6, 2) == s.shndx && Word(b, 8, 8) == s.value
      && Word(b, 16, 8) == s.size
  {
    Pow256Values();
    hide Le; hide Word; hide Pow256;
    var b := SymBytes(s);
    var p1 := Le(s.name, 4);
    var p2 := p1 + Le(s.info, 1);
    var p3 := p2 + Le(0, 1) + Le(s.shndx, 2);
    var p4 := p3 + Le(s.value, 8);
    WordAt([], s.name, 4, b[4..]);
    assert b == [] + p1 + b[4..];
    WordAt(p1, s.info, 1, b[5..]);
    assert b == p2 + b[5..];
    WordAt(p2 + Le(0, 1), s.shndx, 2, b[8..]);
    assert b == p3 + b[8..];
    WordAt(p3, s.value, 8, b[16..]);
    assert b == p4 + b[16..];
    WordAt(p4, s.size, 8, []);
    assert b == p4 + Le(s.size, 8) + [];
  }

  lemma {:induction false} SymPlace(syms: seq<Sym>, i: nat, n: nat)
    requires i < n <= |syms|
    ensures SymtabBytes(syms, n)[SYM_SIZE * i..SYM_SIZE * i + SYM_SIZE] == SymBytes(syms[i])
    decreases n
  {
    hide SymBytes;
    var last, init := SymtabBytes(syms, n), SymtabBytes(syms, n - 1);
    if i == n - 1 {
      assert last[SYM_SIZE * i..SYM_SIZE * i + SYM_SIZE] == last[|init|..];
    } else {
      SymPlace(syms, i, n - 1);
      assert last[SYM_SIZE * i..SYM_SIZE * i + SYM_SIZE] == init[SYM_SIZE * i..SYM_SIZE * i + SYM_SIZE];
    }
  }

  lemma SymAt(tab: seq<byte>, p: nat, s: Sym)
    requires SymFits(s) && p + SYM_SIZE <= |tab| && tab[p..p + SYM_SIZE] == SymBytes(s)
    ensures Sym(Word(tab, p, 4), Word(tab, p + 4, 1), Word(tab, p + 6, 2), Word(tab, p + 8, 8), Word(tab, p + 16, 8))
      == s
  {
    SymWords(s);
    hide SymBytes; hide Word;
    WordInside(tab, p, SYM_SIZE, 0, 4);
    WordInside(tab, p, SYM_SIZE, 4, 1);
    WordInside(tab, p, SYM_SIZE, 6, 2);
    WordInside(tab, p, SYM_SIZE, 8, 8);
    WordInside(tab, p, SYM_SIZE, 16, 8);
  }

  lemma SymReads(syms: seq<Sym>, i: nat)
    requires i < |syms| && SymFits(syms[i])
    ensures ReadSym(SymtabBytes(syms, |syms|), i) == Some(syms[i])
  {
    SymPlace(syms, i, |syms|);
    hide SymBytes; hide SymtabBytes; hide Word; hide SymFits;
    SymAt(SymtabBytes(syms, |syms|), SYM_SIZE * i, syms[i]);
  }

  lemma {:induction false} SymbolNamesSplit(gs: seq<Symbol>, j: nat, n: nat) returns (b: seq<byte>)
    requires j < n <= |gs|
    ensures SymbolNames(gs, n) == SymbolNames(gs, j) + Chars(gs[j].name) + [0] + b
    decreases n
  {
    if j == n - 1 {
      b := [];
    } else {
      var c := SymbolNamesSplit(gs, j, n - 1);
      b := c + Chars(gs[n - 1].name) + [0];
    }
  }

  /** The fields of a symbol's entry, but for its name. */
  predicate Describes(e: Sym, obj: ObjectFile, s: Symbol) {
    (e.info / 16 == 1 <==> s.isGlobal) && (e.info % 16 == STT_FUNC <==> s.isFunction)
    && e.shndx == (if s.sectionIdx > 0 then s.sectionIdx else 1) % 0x1_0000 && e.size == s.size
    && e.value == (if obj.isExecutable then SectionAddr(obj, s.sectionIdx) + s.value else s.value) % TWO64
  }

  lemma GlobalSymFields(obj: ObjectFile, j: nat)
    requires j < |obj.globalSymbols|
    ensures SymFits(GlobalSym(obj, j)) && Describes(GlobalSym(obj, j), obj, obj.globalSymbols[j])
    ensures Syms(obj)[5 + j] == GlobalSym(obj, j)
  {
    hide SymbolNames; hide SectionAddr; hide Chars;
  }

  /** The symbol and string tables give back every symbol: its name, binding, type, section, value and size. */
  lemma SymbolsReadBack(obj: ObjectFile, j: nat)
    requires j < |obj.globalSymbols| && 0 !in Chars(obj.globalSymbols[j].name) && |StrtabSec(obj).data| < TWO32
    ensures ReadSym(SymtabSec(obj).data, 5 + j) == Some(GlobalSym(obj, j))
    ensures StringAt(StrtabSec(obj).data, GlobalSym(obj, j).name) == Some(Chars(obj.globalSymbols[j].name))
    ensures Describes(GlobalSym(obj, j), obj, obj.globalSymbols[j])
  {
    var gs := obj.globalSymbols;
    GlobalSymFields(obj, j);
    SymReads(Syms(obj), 5 + j);
    var b := SymbolNamesSplit(gs, j, |gs|);
    StringReads(SymbolNames(gs, j), Chars(gs[j].name), b);
    SmallName(|SymbolNames(gs, j)|);
    hide SymbolNames; hide Syms; hide SymtabBytes; hide ReadSym; hide StringAt; hide Chars; hide SectionAddr;
    hide Describes; hide SymFits;
  }

  lemma SmallName(n: nat)
    ensures n < TWO32 ==> n % TWO32 == n
  {
  }

  /** In an executable, a symbol's value is the address its byte is loaded at. */
  lemma SymbolPointsAtItsByte(obj: ObjectFile, j: nat)
    requires obj.isExecutable && Fits(obj) && j < |obj.globalSymbols|
    requires 1 <= obj.globalSymbols[j].sectionIdx <= 3
    requires obj.globalSymbols[j].value < |Sections(obj)[obj.globalSymbols[j].sectionIdx].data|
    ensures ReadSegment(ElfFile(obj)).Some?
    ensures var s := obj.globalSymbols[j];
      LoadedByte(ElfFile(obj), ReadSegment(ElfFile(obj)).value, GlobalSym(obj, j).value)
      == Some(Sections(obj)[s.sectionIdx].data[s.value])
  {
    hide *;
    var s := obj.globalSymbols[j];
    AllocatedAddress(obj, s.sectionIdx);
    ImageFaithful(obj, s.sectionIdx, s.value);
    SymbolAddress(obj, j);
  }

  lemma AllocatedAddress(obj: ObjectFile, i: nat)
    requires 1 <= i <= 3
    ensures IsAlloc(Sections(obj)[i]) && Sections(obj)[i].addr == SectionAddr(obj, i)
  {
    LoadedSections(obj);
    hide Sections; hide RodataAddr; hide DataAddr; hide BssAddr; hide Chars; hide LastNamed;
  }

  lemma SymbolAddress(obj: ObjectFile, j: nat)
    requires obj.isExecutable && Fits(obj) && j < |obj.globalSymbols|
    requires 1 <= obj.globalSymbols[j].sectionIdx <= 3
    requires obj.globalSymbols[j].value < |Sections(obj)[obj.globalSymbols[j].sectionIdx].data|
    ensures GlobalSym(obj, j).value == Sections(obj)[obj.globalSymbols[j].sectionIdx].addr + obj.globalSymbols[j].value
  {
    var s := obj.globalSymbols[j];
    GlobalSymFields(obj, j);
    AddressBound(obj, s.sectionIdx);
    SmallMod(Sections(obj)[s.sectionIdx].addr + s.value);
    hide Sections; hide GlobalSym; hide SectionAddr; hide SymFits;
    AllocatedAddress(obj, s.sectionIdx);
  }

  lemma AddressBound(obj: ObjectFile, i: nat)
    requires obj.isExecutable && Fits(obj) && 1 <= i <= 3 && Sections(obj)[i].data != []
    ensures Sections(obj)[i].addr + |Sections(obj)[i].data| < TWO64
  {
    ExtentBound(obj);
    hide *;
    AllocatedExtent(obj, i);
  }

  /** The string table starts with the NUL the gABI asks for exactly when the first name is empty or starts with one. */
  lemma StrtabStartsWithNul(obj: ObjectFile)
    requires obj.globalSymbols != []
    ensures |StrtabSec(obj).data| > 0
    ensures var s := Chars(obj.globalSymbols[0].name); StrtabSec(obj).data[0] == 0 <==> s == [] || s[0] == 0
    ensures GlobalSym(obj, 0).name == 0
  {
    var gs := obj.globalSymbols;
    var b := SymbolNamesSplit(gs, 0, |gs|);
    assert SymbolNames(gs, 0) == [];
    var s, tab := Chars(gs[0].name), SymbolNames(gs, |gs|);
    assert tab == s + [0] + b;
    hide SymbolNames; hide Chars;
    assert tab[0] == if s == [] then 0 else s[0];
  }

  /** sh_info of the symbol table says one local symbol; the section symbols are local too. */
  lemma SymtabInfoTooSmall(obj: ObjectFile)
    ensures SymtabSec(obj).info == 1
    ensures forall i | 0 <= i < 5 :: Syms(obj)[i].info / 16 == 0
  {
  }

  // ---- relocations ----

  datatype Rela = Rela(offset: nat, symbol: nat, kind: nat, addend: nat)

  function ReadRela(tab: seq<byte>, i: nat): Option<Rela> {
    var p := RELA_SIZE * i;
    if p + RELA_SIZE > |tab| then None
    else Some(Rela(Word(tab, p, 8), Word(tab, p + 8, 8) / TWO32, Word(tab, p + 8, 8) % TWO32, Word(tab, p + 16, 8)))
  }

  lemma {:induction false} RelocPlace(relocs: seq<Relocation>, i: nat, n: nat)
    requires i < n <= |relocs|
    ensures RelaBytes(relocs, n)[RELA_SIZE * i..RELA_SIZE * i + RELA_SIZE] == RelocBytes(relocs[i])
    decreases n
  {
    hide RelocBytes;
    var last, init := RelaBytes(relocs, n), RelaBytes(relocs, n - 1);
    if i == n - 1 {
      assert last[RELA_SIZE * i..RELA_SIZE * i + RELA_SIZE] == last[|init|..];
    } else {
      RelocPlace(relocs, i, n - 1);
      assert last[RELA_SIZE * i..RELA_SIZE * i + RELA_SIZE] == init[RELA_SIZE * i..RELA_SIZE * i + RELA_SIZE];
    }
  }

  lemma RelocAt(tab: seq<byte>, p: nat, r: Relocation)
    requires p + RELA_SIZE <= |tab| && tab[p..p + RELA_SIZE] == RelocBytes(r)
    ensures Word(tab, p, 8) == r.offset && Word(tab, p + 8, 8) == RelocInfo(r)
    ensures Word(tab, p + 16, 8) == r.addend % TWO64
  {
    RelocWords(r);
    hide RelocBytes; hide Word;
    WordInside(tab, p, RELA_SIZE, 0, 8);
    WordInside(tab, p, RELA_SIZE, 8, 8);
    WordInside(tab, p, RELA_SIZE, 16, 8);
  }

  lemma InfoSplits(r: Relocation)
    ensures RelocInfo(r) / TWO32 == r.symbol % TWO32 && RelocInfo(r) % TWO32 == r.kind
  {
    DivMod(RelocInfo(r), TWO32, r.symbol % TWO32, r.kind);
  }

  /** Every relocation is read back: offset, symbol and type unpacked from r_info, addend in two's complement. */
  lemma RelocationsReadBack(relocs: seq<Relocation>, i: nat)
    requires i < |relocs|
    ensures var r := relocs[i];
      ReadRela(RelaBytes(relocs, |relocs|), i) == Some(Rela(r.offset, r.symbol % TWO32, r.kind, r.addend % TWO64))
  {
    var r := relocs[i];
    RelocPlace(relocs, i, |relocs|);
    InfoSplits(r);
    hide RelocBytes; hide RelaBytes; hide Word; hide RelocInfo;
    RelocAt(RelaBytes(relocs, |relocs|), RELA_SIZE * i, r);
  }

  lemma RelocWords(r: Relocation)
    ensures var b := RelocBytes(r);
      Word(b, 0, 8) == r.offset && Word(b, 8, 8) == RelocInfo(r) && Word(b, 16, 8) == r.addend % TWO64
  {
    Pow256Values();
    hide Le; hide Word; hide Pow256;
    var b := RelocBytes(r);
    var info := RelocInfo(r);
    WordAt([], r.offset, 8, b[8..]);
    assert b == [] + Le(r.offset, 8) + b[8..];
    WordAt(Le(r.offset, 8), info, 8, b[16..]);
    assert b == Le(r.offset, 8) + Le(info, 8) + b[16..];
    WordAt(Le(r.offset, 8) + Le(info, 8), r.addend % TWO64, 8, []);
    assert b == Le(r.offset, 8) + Le(info, 8) + Le(r.addend % TWO64, 8) + [];
  }
}
