/**
  The ELF header as a reader finds it: the entry point and where it leads, and the fields that
  say what kind of file it is.
 */
module ElfEntry {
  import opened Ast
  import opened Words
  import opened Elf
  import opened ElfTheorems
  import opened ElfImage
  import opened ElfSymbols

  /** e_entry of the gABI's file header, at byte 24. */
  function EntryField(f: seq<byte>): nat
    requires |f| >= 64
  {
    Word(f, 24, 8)
  }

  lemma {:induction false} EntryFits(obj: ObjectFile, n: nat)
    requires n <= |obj.globalSymbols|
    ensures Entry(obj, n) < TWO64
  {
    hide SectionAddr; hide EntryName;
    if n > 0 { EntryFits(obj, n - 1); }
  }

  lemma EntryWritten(obj: ObjectFile)
    ensures |ElfFile(obj)| >= 64 && EntryField(ElfFile(obj)) == Entry(obj, |obj.globalSymbols|)
  {
    FileParts(obj);
    hide ElfFile; hide Sections; hide FileHeader; hide Shoff; hide Entry; hide Word;
    EntryInHeader(obj);
    WordInside(ElfFile(obj), 0, 64, 24, 8);
    assert ElfFile(obj)[0..64] == FileHeader(obj);
  }

  lemma EntryInHeader(obj: ObjectFile)
    ensures Word(FileHeader(obj), 24, 8) == Entry(obj, |obj.globalSymbols|)
  {
    EntryFits(obj, |obj.globalSymbols|);
    hide Sections; hide Word; hide Shoff; hide Ident; hide SizeFields; hide Le; hide Entry;
    var h, entry := FileHeader(obj), Entry(obj, |obj.globalSymbols|);
    var a := Ident() + Le(if obj.isExecutable then ET_EXEC else ET_REL, 2) + Le(EM_HVM, 2) + Le(1, 4);
    Pow256Values();
    WordAt(a, entry, 8, h[32..]);
    assert h == a + Le(entry, 8) + h[32..];
  }

  /** The symbol a program starts at: the last one with one of three names. */
  predicate StartsAt(obj: ObjectFile, j: nat)
    requires j < |obj.globalSymbols|
  {
    var names := {"_start", "main", "kernel_main"};
    obj.globalSymbols[j].name in names && forall k | j < k < |obj.globalSymbols| :: obj.globalSymbols[k].name !in names
  }

  lemma {:induction false} EntryOf(obj: ObjectFile, j: nat, n: nat)
    requires j < n <= |obj.globalSymbols| && StartsAt(obj, j)
    ensures Entry(obj, n) == Entry(obj, j + 1)
    decreases n
  {
    if n > j + 1 { EntryOf(obj, j, n - 1); }
  }

  lemma EntryValue(obj: ObjectFile, j: nat)
    requires j < |obj.globalSymbols| && StartsAt(obj, j)
    ensures var s := obj.globalSymbols[j];
      Entry(obj, |obj.globalSymbols|) ==
      (if obj.isExecutable then SectionAddr(obj, if s.sectionIdx > 0 then s.sectionIdx else 1) + s.value
       else s.value) % TWO64
  {
    hide SectionAddr;
    EntryOf(obj, j, |obj.globalSymbols|);
  }

  /** Without such a symbol the entry is 0. */
  lemma {:induction false} NoEntry(obj: ObjectFile, n: nat)
    requires n <= |obj.globalSymbols|
    requires forall k | 0 <= k < n :: obj.globalSymbols[k].name !in {"_start", "main", "kernel_main"}
    ensures Entry(obj, n) == 0
  {
    if n > 0 { NoEntry(obj, n - 1); }
  }

  lemma NoStartNoEntry(obj: ObjectFile)
    requires forall s | s in obj.globalSymbols :: s.name !in {"_start", "main", "kernel_main"}
    ensures |ElfFile(obj)| >= 64 && EntryField(ElfFile(obj)) == 0
  {
    hide Entry; hide ElfFile;
    EntryWritten(obj);
    NoEntry(obj, |obj.globalSymbols|);
  }

  /** In a relocatable file the entry is the bare value of the symbol. */
  lemma RelocatableEntry(obj: ObjectFile, j: nat)
    requires !obj.isExecutable && j < |obj.globalSymbols| && StartsAt(obj, j)
    ensures |ElfFile(obj)| >= 64 && EntryField(ElfFile(obj)) == obj.globalSymbols[j].value
  {
    EntryOf(obj, j, |obj.globalSymbols|);
    SmallMod(obj.globalSymbols[j].value);
    hide ElfFile;
    EntryWritten(obj);
  }

  /** The address the symbol would have in section `i`, by the headers read from the file. */
  function AddressIn(secs: seq<Sec>, i: int, value: u64): nat {
    ((if 1 <= i <= 4 && i < |secs| then secs[i].addr else 0) + value) % TWO64
  }

  /**
    In an executable it is the value of the symbol behind the address of its section: of `.text`
    if its index is 0 or less, of none if it is above 4.
   */
  lemma ExecutableEntry(obj: ObjectFile, j: nat)
    requires obj.isExecutable && Fits(obj) && j < |obj.globalSymbols| && StartsAt(obj, j)
    ensures |ElfFile(obj)| >= 64 && ReadElf(ElfFile(obj)).Some?
    ensures var s := obj.globalSymbols[j];
      EntryField(ElfFile(obj)) ==
        AddressIn(ReadElf(ElfFile(obj)).value, if s.sectionIdx > 0 then s.sectionIdx else 1, s.value)
  {
    hide *;
    var s := obj.globalSymbols[j];
    EntryValue(obj, j);
    EntryWritten(obj);
    ReadBack(obj);
    AddressRead(obj, if s.sectionIdx > 0 then s.sectionIdx else 1, s.value);
  }

  lemma AddressRead(obj: ObjectFile, i: int, value: u64)
    ensures AddressIn(Sections(obj), i, value) == (SectionAddr(obj, i) + value) % TWO64
  {
    SectionAddresses(obj);
    hide Sections; hide SectionAddr;
  }

  lemma SectionAddresses(obj: ObjectFile)
    ensures |Sections(obj)| > 4
    ensures forall i | 1 <= i <= 4 :: Sections(obj)[i].addr == SectionAddr(obj, i)
    ensures forall i | i < 1 || i > 4 :: SectionAddr(obj, i) == 0
  {
    hide RodataAddr; hide DataAddr; hide BssAddr; hide BaseAddr; hide Chars; hide LastNamed; hide SymtabSec;
    hide StrtabSec; hide RelaSec; hide ShstrtabSec;
    LoadedSections(obj);
  }

  /** Section 5 as read is the symbol table; the entry is the value it has for the symbol if the index is above 0. */
  lemma EntryIsSymbolValue(obj: ObjectFile, j: nat) returns (e: Sym)
    requires obj.isExecutable && Fits(obj) && j < |obj.globalSymbols| && StartsAt(obj, j)
    ensures |ElfFile(obj)| >= 64 && ReadElf(ElfFile(obj)).Some? && |ReadElf(ElfFile(obj)).value| > 5
    ensures ReadSym(ReadElf(ElfFile(obj)).value[5].data, 5 + j) == Some(e)
    ensures obj.globalSymbols[j].sectionIdx > 0 ==> EntryField(ElfFile(obj)) == e.value
    ensures obj.globalSymbols[j].sectionIdx <= 0 ==> e.value == obj.globalSymbols[j].value
  {
    hide *;
    e := GlobalSym(obj, j);
    SymbolValue(obj, j);
    SymReads(Syms(obj), 5 + j);
    SymtabIsFifth(obj);
    EntryValue(obj, j);
    EntryWritten(obj);
    ReadBack(obj);
  }

  lemma SymbolValue(obj: ObjectFile, j: nat)
    requires obj.isExecutable && j < |obj.globalSymbols|
    ensures var s := obj.globalSymbols[j];
      (s.sectionIdx > 0 ==> GlobalSym(obj, j).value == (SectionAddr(obj, s.sectionIdx) + s.value) % TWO64)
      && (s.sectionIdx <= 0 ==> GlobalSym(obj, j).value == s.value)
    ensures 5 + j < |Syms(obj)| && Syms(obj)[5 + j] == GlobalSym(obj, j) && SymFits(GlobalSym(obj, j))
  {
    hide Syms; hide GlobalSym;
    GlobalSymFields(obj, j);
    SmallMod(obj.globalSymbols[j].value);
    SectionAddresses(obj);
    hide SectionAddr;
  }

  lemma SymtabIsFifth(obj: ObjectFile)
    ensures |Sections(obj)| > 5 && Sections(obj)[5].data == SymtabBytes(Syms(obj), |Syms(obj)|)
  {
    hide RodataAddr; hide DataAddr; hide BssAddr; hide BaseAddr; hide Chars; hide LastNamed; hide SymtabBytes;
    hide Syms; hide StrtabSec; hide RelaSec; hide ShstrtabSec;
  }

  /** So an executable starts at the byte of that symbol. */
  lemma EntryPointsAtItsByte(obj: ObjectFile, j: nat)
    requires obj.isExecutable && Fits(obj) && j < |obj.globalSymbols| && StartsAt(obj, j)
    requires obj.globalSymbols[j].sectionIdx <= 3
    requires var s := obj.globalSymbols[j];
      s.value < |Sections(obj)[if s.sectionIdx > 0 then s.sectionIdx else 1].data|
    ensures |ElfFile(obj)| >= 64 && ReadSegment(ElfFile(obj)).Some?
    ensures var s := obj.globalSymbols[j];
      LoadedByte(ElfFile(obj), ReadSegment(ElfFile(obj)).value, EntryField(ElfFile(obj)))
      == Some(Sections(obj)[if s.sectionIdx > 0 then s.sectionIdx else 1].data[s.value])
  {
    hide *;
    var s := obj.globalSymbols[j];
    var i := if s.sectionIdx > 0 then s.sectionIdx else 1;
    AllocatedAddress(obj, i);
    ImageFaithful(obj, i, s.value);
    ExecutableEntry(obj, j);
    ReadBack(obj);
    AddressBound(obj, i);
    AddressOfEntry(Sections(obj), i, s.value);
  }

  lemma AddressOfEntry(secs: seq<Sec>, i: int, value: u64)
    requires 1 <= i <= 4 && i < |secs| && secs[i].addr + value < TWO64
    ensures AddressIn(secs, i, value) == secs[i].addr + value
  {
    SmallMod(secs[i].addr + value);
  }

  // ---- the other fields ----

  /**
    The identification says 64-bit, little-endian, version 1; then come the type, executable (2) or
    relocatable (1), the machine 0x9999, version 1, no flags, and the sizes of the headers.
   */
  lemma FileKind(obj: ObjectFile)
    ensures var f := ElfFile(obj);
      |f| >= 64
      && f[..16] == [0x7F, 0x45, 0x4C, 0x46, 2, 1, 1, 0, 0, 0, 0, 0, 0, 0, 0, 0]
      && Word(f, 16, 2) == (if obj.isExecutable then 2 else 1) && Word(f, 18, 2) == 0x9999 && Word(f, 20, 4) == 1
      && Word(f, 48, 4) == 0 && Word(f, 52, 2) == 64 && Word(f, 54, 2) == (if obj.isExecutable then 56 else 0)
  {
    hide *;
    FileHead(obj);
    IdentBytes();
    TypeWords(obj);
    SizeWords(obj);
    WordsInHeader(ElfFile(obj), FileHeader(obj));
    assert ElfFile(obj)[..16] == ElfFile(obj)[..64][..16];
  }

  lemma FileHead(obj: ObjectFile)
    ensures |ElfFile(obj)| >= 64 && ElfFile(obj)[..64] == FileHeader(obj) && FileHeader(obj)[..16] == Ident()
  {
    FileParts(obj);
    hide ElfFile; hide Sections; hide Shoff; hide Ident; hide TypeFields; hide SizeFields; hide Entry;
  }

  lemma TypeWords(obj: ObjectFile)
    ensures var h := FileHeader(obj);
      Word(h, 16, 2) == (if obj.isExecutable then 2 else 1) && Word(h, 18, 2) == 0x9999 && Word(h, 20, 4) == 1
  {
    hide Sections; hide Word; hide Shoff; hide Ident; hide SizeFields; hide Le; hide Entry; hide Pow256;
    var h, kind := FileHeader(obj), if obj.isExecutable then 2 else 1;
    var a := Ident();
    var b := a + Le(kind, 2) + Le(0x9999, 2);
    Pow256Values();
    WordAt(a, kind, 2, h[18..]);
    assert h == a + Le(kind, 2) + h[18..];
    WordAt(a + Le(kind, 2), 0x9999, 2, h[20..]);
    assert h == b + h[20..];
    WordAt(b, 1, 4, h[24..]);
    assert h == b + Le(1, 4) + h[24..];
  }

  lemma SizeWords(obj: ObjectFile)
    ensures var h := FileHeader(obj);
      Word(h, 48, 4) == 0 && Word(h, 52, 2) == 64 && Word(h, 54, 2) == (if obj.isExecutable then 56 else 0)
  {
    hide Sections; hide Word; hide Shoff; hide Ident; hide TypeFields; hide Le; hide Entry; hide Pow256;
    var h, size := FileHeader(obj), if obj.isExecutable then 56 else 0;
    var c := h[..48];
    var d := c + Le(0, 4);
    Pow256Values();
    WordAt(c, 0, 4, h[52..]);
    assert h == d + h[52..];
    WordAt(d, 64, 2, h[54..]);
    assert h == d + Le(64, 2) + h[54..];
    WordAt(d + Le(64, 2), size, 2, h[56..]);
    assert h == d + Le(64, 2) + Le(size, 2) + h[56..];
  }

  lemma WordsInHeader(f: seq<byte>, h: seq<byte>)
    requires |f| >= 64 && f[..64] == h
    ensures Word(f, 16, 2) == Word(h, 16, 2) && Word(f, 18, 2) == Word(h, 18, 2) && Word(f, 20, 4) == Word(h, 20, 4)
    ensures Word(f, 48, 4) == Word(h, 48, 4) && Word(f, 52, 2) == Word(h, 52, 2) && Word(f, 54, 2) == Word(h, 54, 2)
  {
    hide Word;
    assert f[0..64] == h;
    WordInside(f, 0, 64, 16, 2);
    WordInside(f, 0, 64, 18, 2);
    WordInside(f, 0, 64, 20, 4);
    WordInside(f, 0, 64, 48, 4);
    WordInside(f, 0, 64, 52, 2);
    WordInside(f, 0, 64, 54, 2);
  }

  lemma IdentBytes()
    ensures Ident() == [0x7F, 0x45, 0x4C, 0x46, 2, 1, 1, 0, 0, 0, 0, 0, 0, 0, 0, 0]
  {
    LeOfWord(ELF_MAGIC);
    LeStep(2, 1);
    LeStep(1, 1);
    LeStep(0, 1);
  }

  /** The one program header of an executable: loadable, all permissions, same physical address, pages of 4096 bytes. */
  lemma SegmentKind(obj: ObjectFile)
    requires obj.isExecutable && Fits(obj)
    ensures var f := ElfFile(obj);
      |f| >= 120 && Word(f, 64, 4) == 1 && Word(f, 68, 4) == 7 && Word(f, 88, 8) == Word(f, 80, 8)
      && Word(f, 112, 8) == 0x1000
  {
    hide *;
    var offset, vaddr, filesz, memsz := SegmentBytes(obj);
    PhdrKinds(offset, vaddr, filesz, memsz);
    WordsInSegment(ElfFile(obj), PhdrBytes(offset, vaddr, filesz, memsz));
  }

  lemma SegmentBytes(obj: ObjectFile) returns (offset: nat, vaddr: nat, filesz: nat, memsz: nat)
    requires obj.isExecutable && Fits(obj)
    ensures vaddr < TWO64 && |ElfFile(obj)| >= 120 && ElfFile(obj)[64..120] == PhdrBytes(offset, vaddr, filesz, memsz)
  {
    hide *;
    PhdrPlace(obj);
    SpanBounds(obj);
    var sp := SpanOf(Sections(obj), 120, |Sections(obj)|);
    offset, vaddr := sp.firstOff, sp.minAddr;
    filesz, memsz := (sp.lastEnd - sp.firstOff) % TWO64, (sp.maxAddr - sp.minAddr) % TWO64;
  }

  lemma WordsInSegment(f: seq<byte>, b: seq<byte>)
    requires |f| >= 120 && f[64..120] == b
    ensures Word(f, 64, 4) == Word(b, 0, 4) && Word(f, 68, 4) == Word(b, 4, 4) && Word(f, 80, 8) == Word(b, 16, 8)
    ensures Word(f, 88, 8) == Word(b, 24, 8) && Word(f, 112, 8) == Word(b, 48, 8)
  {
    hide Word;
    WordInside(f, 64, 56, 0, 4);
    WordInside(f, 64, 56, 4, 4);
    WordInside(f, 64, 56, 16, 8);
    WordInside(f, 64, 56, 24, 8);
    WordInside(f, 64, 56, 48, 8);
  }

  lemma PhdrKinds(offset: nat, vaddr: nat, filesz: nat, memsz: nat)
    requires vaddr < TWO64
    ensures var b := PhdrBytes(offset, vaddr, filesz, memsz);
      Word(b, 0, 4) == 1 && Word(b, 4, 4) == 7 && Word(b, 24, 8) == Word(b, 16, 8) && Word(b, 48, 8) == 0x1000
  {
    Pow256Values();
    hide Le; hide Word; hide Pow256;
    var b := PhdrBytes(offset, vaddr, filesz, memsz);
    var p1 := Le(1, 4) + Le(7, 4);
    var p2 := p1 + Le(offset, 8);
    WordAt([], 1, 4, b[4..]);
    assert b == [] + Le(1, 4) + b[4..];
    WordAt(Le(1, 4), 7, 4, b[8..]);
    assert b == p1 + b[8..];
    WordAt(p2, vaddr, 8, b[24..]);
    assert b == p2 + Le(vaddr, 8) + b[24..];
    WordAt(p2 + Le(vaddr, 8), vaddr, 8, b[32..]);
    assert b == p2 + Le(vaddr, 8) + Le(vaddr, 8) + b[32..];
    WordAt(b[..48], 0x1000, 8, []);
    assert b == b[..48] + Le(0x1000, 8) + [];
  }

  /** Name, type, flags, alignment, entry size, link and info of a section. */
  predicate Described(s: Sec, name: string, kind: nat, flags: nat, align: nat, entsize: nat, link: nat, info: nat) {
    s.name == Chars(name) && s.kind == kind && s.flags == flags && s.align == align && s.entsize == entsize
    && s.link == link && s.info == info
  }

  /** The sections a reader finds, in order, as the gABI numbers their types and flags; `.bss` has type 8. */
  lemma SectionsFound(obj: ObjectFile)
    requires Fits(obj)
    ensures ReadElf(ElfFile(obj)).Some? && |ReadElf(ElfFile(obj)).value| >= 8
    ensures var s := ReadElf(ElfFile(obj)).value;
      Described(s[0], "", 0, 0, 0, 0, 0, 0) && Described(s[1], ".text", 1, 6, 4, 0, 0, 0)
      && Described(s[2], ".rodata", 1, 2, 8, 0, 0, 0) && Described(s[3], ".data", 1, 3, 8, 0, 0, 0)
      && Described(s[4], ".bss", 8, 3, 8, 0, 0, 0) && Described(s[5], ".symtab", 2, 0, 8, 24, 6, 1)
      && Described(s[6], ".strtab", 3, 0, 1, 0, 0, 0)
      && (|s| == 9 ==> Described(s[7], ".rela.text", 4, 0, 8, 24, 5, 1))
      && Described(s[|s| - 1], ".shstrtab", 3, 0, 1, 0, 0, 0)
  {
    hide ElfFile; hide ReadElf; hide Fits; hide Chars; hide LastNamed; hide RodataAddr; hide DataAddr; hide BssAddr;
    hide SymtabBytes; hide SymbolNames; hide RelaBytes; hide NameTable; hide Syms;
    ReadBack(obj);
    assert Chars("") == [];
  }

  /** Section `i` starts at the first multiple of 8 behind the one before. */
  predicate Follows(secs: seq<Sec>, i: nat)
    requires 0 < i < |secs|
  {
    var end := secs[i - 1].addr + |secs[i - 1].data|;
    secs[i].addr % 8 == 0 && end <= secs[i].addr < end + 8
  }

  /** In memory `.text`, `.rodata`, `.data` and `.bss` follow each other from 0x100000 on. */
  lemma AddressesFollow(obj: ObjectFile)
    requires Fits(obj)
    ensures ReadElf(ElfFile(obj)).Some? && |ReadElf(ElfFile(obj)).value| >= 8
    ensures var s := ReadElf(ElfFile(obj)).value;
      s[1].addr == (if obj.isExecutable then 0x10_0000 else 0) && Follows(s, 2) && Follows(s, 3) && Follows(s, 4)
  {
    hide *;
    ReadBack(obj);
    SectionsFollow(obj);
  }

  lemma SectionsFollow(obj: ObjectFile)
    ensures var s := Sections(obj);
      |s| >= 8 && s[1].addr == (if obj.isExecutable then 0x10_0000 else 0) && Follows(s, 2) && Follows(s, 3)
      && Follows(s, 4)
  {
    hide Chars; hide LastNamed; hide AlignUp; hide SymtabSec; hide StrtabSec; hide RelaSec; hide ShstrtabSec;
  }
}
