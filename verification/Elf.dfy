/**
  The ELF writer: section layout, string tables, symbol table, relocations, headers.

  The functions give the bytes of the file for an object file; the methods grow byte vectors
  and patch section records as the program does, and are proved to produce those bytes.
 */
module Elf {
  import opened Words

  const EM_HVM := 0x9999
  const ELF_MAGIC := 0x464C_457F
  const ELF_HEADER_SIZE := 64
  const PHDR_SIZE := 56
  const SHDR_SIZE := 64
  const SYM_SIZE := 24
  const RELA_SIZE := 24
  const HVM_BASE_ADDR := 0x10_0000

  const ET_REL := 1
  const ET_EXEC := 2

  const SHT_NULL := 0
  const SHT_PROGBITS := 1
  const SHT_SYMTAB := 2
  const SHT_STRTAB := 3
  const SHT_RELA := 4
  const SHT_NOBITS := 8

  // Combinations of SHF_WRITE (1), SHF_ALLOC (2) and SHF_EXECINSTR (4).
  const ALLOC := 2
  const ALLOC_WRITE := 3
  const ALLOC_EXEC := 6

  const STT_OBJECT := 1
  const STT_FUNC := 2
  const STT_SECTION := 3

  // ---- object files ----

  datatype Relocation = Relocation(offset: u64, kind: byte, symbol: int, addend: int)

  datatype Symbol = Symbol(name: string, value: u64, size: u64, isGlobal: bool, isFunction: bool, sectionIdx: int)

  datatype Section = Section(name: string, data: seq<byte>, relocs: seq<Relocation>)

  datatype ObjectFile = ObjectFile(sections: seq<Section>, globalSymbols: seq<Symbol>, isExecutable: bool)

  /** The bytes of a string of 8-bit characters. */
  function Chars(s: string): (b: seq<byte>)
    ensures |b| == |s|
  {
    seq(|s|, i requires 0 <= i < |s| => s[i] as int % 256)
  }

  /** The last section of that name; earlier ones of the same name are dropped. */
  function LastNamed(sections: seq<Section>, name: string): Section {
    if sections == [] then Section(name, [], [])
    else if sections[|sections| - 1].name == name then sections[|sections| - 1]
    else LastNamed(sections[..|sections| - 1], name)
  }

  // ---- the sections of the file ----

  /** A section as a reader of the file sees it, its place in the file aside. */
  datatype Sec = Sec(name: seq<byte>, kind: nat, flags: nat, addr: nat, link: nat, info: nat,
                     align: nat, entsize: nat, data: seq<byte>)

  function AlignUp(x: nat, a: nat): (r: nat)
    requires a > 0
    ensures x <= r < x + a && r % a == 0
  {
    if x % a == 0 then x
    else
      assert x == a * (x / a) + x % a;
      NextMultiple(x, a);
      x + (a - x % a)
  }

  lemma NextMultiple(x: nat, a: nat)
    requires a > 0
    ensures (x + (a - x % a)) % a == 0
  {
    var q := x / a;
    assert x + (a - x % a) == a * (q + 1) + 0 by {
      assert x == a * q + x % a;
      assert a * (q + 1) == a * q + a;
    }
    DivMod(x + (a - x % a), a, q + 1, 0);
  }

  function BaseAddr(obj: ObjectFile): nat { if obj.isExecutable then HVM_BASE_ADDR else 0 }

  function TextData(obj: ObjectFile): seq<byte> { LastNamed(obj.sections, ".text").data }

  function RodataData(obj: ObjectFile): seq<byte> { LastNamed(obj.sections, ".rodata").data }

  function DataData(obj: ObjectFile): seq<byte> { LastNamed(obj.sections, ".data").data }

  function RodataAddr(obj: ObjectFile): nat { AlignUp(BaseAddr(obj) + |TextData(obj)|, 8) }

  function DataAddr(obj: ObjectFile): nat { AlignUp(RodataAddr(obj) + |RodataData(obj)|, 8) }

  function BssAddr(obj: ObjectFile): nat { AlignUp(DataAddr(obj) + |DataData(obj)|, 8) }

  function NullSec(): Sec { Sec([], SHT_NULL, 0, 0, 0, 0, 0, 0, []) }

  function TextSec(obj: ObjectFile): Sec {
    Sec(Chars(".text"), SHT_PROGBITS, ALLOC_EXEC, BaseAddr(obj), 0, 0, 4, 0, TextData(obj))
  }

  function RodataSec(obj: ObjectFile): Sec {
    Sec(Chars(".rodata"), SHT_PROGBITS, ALLOC, RodataAddr(obj), 0, 0, 8, 0, RodataData(obj))
  }

  function DataSec(obj: ObjectFile): Sec {
    Sec(Chars(".data"), SHT_PROGBITS, ALLOC_WRITE, DataAddr(obj), 0, 0, 8, 0, DataData(obj))
  }

  function BssSec(obj: ObjectFile): Sec {
    Sec(Chars(".bss"), SHT_NOBITS, ALLOC_WRITE, BssAddr(obj), 0, 0, 8, 0, [])
  }

  function SymtabSec(obj: ObjectFile): Sec {
    Sec(Chars(".symtab"), SHT_SYMTAB, 0, 0, 6, 1, 8, SYM_SIZE, SymtabBytes(Syms(obj), |Syms(obj)|))
  }

  function StrtabSec(obj: ObjectFile): Sec {
    Sec(Chars(".strtab"), SHT_STRTAB, 0, 0, 0, 0, 1, 0, SymbolNames(obj.globalSymbols, |obj.globalSymbols|))
  }

  function RelaSec(obj: ObjectFile): Sec {
    var relocs := LastNamed(obj.sections, ".text").relocs;
    Sec(Chars(".rela.text"), SHT_RELA, 0, 0, 5, 1, 8, RELA_SIZE, RelaBytes(relocs, |relocs|))
  }

  function HasRela(obj: ObjectFile): bool { LastNamed(obj.sections, ".text").relocs != [] }

  function ShstrtabSec(front: seq<Sec>): Sec {
    Sec(Chars(".shstrtab"), SHT_STRTAB, 0, 0, 0, 0, 1, 0, NameTable(front) + Chars(".shstrtab") + [0])
  }

  /** All sections but the last, which holds the names of all. */
  function Front(obj: ObjectFile): (f: seq<Sec>)
    ensures |f| == if HasRela(obj) then 8 else 7
  {
    [NullSec()] + [TextSec(obj)] + [RodataSec(obj)] + [DataSec(obj)] + [BssSec(obj)] + [SymtabSec(obj)]
      + [StrtabSec(obj)]
    + if HasRela(obj) then [RelaSec(obj)] else []
  }

  function Sections(obj: ObjectFile): (secs: seq<Sec>)
    ensures |secs| == |Front(obj)| + 1
  {
    Front(obj) + [ShstrtabSec(Front(obj))]
  }

  /** The section name string table: every name, each closed by a NUL. */
  function NameTable(secs: seq<Sec>): seq<byte> {
    if secs == [] then []
    else NameTable(secs[..|secs| - 1]) + secs[|secs| - 1].name + [0]
  }

  function NameAt(secs: seq<Sec>, i: nat): nat
    requires i <= |secs|
  {
    |NameTable(secs[..i])|
  }

  // ---- symbols and relocations ----

  datatype Sym = Sym(name: nat, info: nat, shndx: nat, value: nat, size: nat)

  /** The names of the first `n` global symbols; the table has no leading NUL. */
  function SymbolNames(gs: seq<Symbol>, n: nat): seq<byte>
    requires n <= |gs|
  {
    if n == 0 then [] else SymbolNames(gs, n - 1) + Chars(gs[n - 1].name) + [0]
  }

  function SectionAddr(obj: ObjectFile, idx: int): nat {
    if idx == 1 then BaseAddr(obj)
    else if idx == 2 then RodataAddr(obj)
    else if idx == 3 then DataAddr(obj)
    else if idx == 4 then BssAddr(obj)
    else 0
  }

  /** The table entry of the `j`-th global symbol. */
  function GlobalSym(obj: ObjectFile, j: nat): Sym
    requires j < |obj.globalSymbols|
  {
    var s := obj.globalSymbols[j];
    Sym(|SymbolNames(obj.globalSymbols, j)| % TWO32,
        (if s.isGlobal then 16 else 0) + (if s.isFunction then STT_FUNC else STT_OBJECT),
        (if s.sectionIdx > 0 then s.sectionIdx else 1) % 0x1_0000,
        (if obj.isExecutable then SectionAddr(obj, s.sectionIdx) + s.value else s.value) % TWO64,
        s.size)
  }

  /** A null entry, one per allocated section, then the global symbols in order. */
  function Syms(obj: ObjectFile): (s: seq<Sym>)
    ensures |s| == 5 + |obj.globalSymbols|
  {
    seq(5 + |obj.globalSymbols|, i requires 0 <= i < 5 + |obj.globalSymbols| =>
      if i == 0 then Sym(0, 0, 0, 0, 0)
      else if i < 5 then Sym(0, STT_SECTION, i, 0, 0)
      else GlobalSym(obj, i - 5))
  }

  function SymBytes(s: Sym): (b: seq<byte>)
    ensures |b| == SYM_SIZE
  {
    Le(s.name, 4) + Le(s.info, 1) + Le(0, 1) + Le(s.shndx, 2) + Le(s.value, 8) + Le(s.size, 8)
  }

  function SymtabBytes(syms: seq<Sym>, n: nat): (b: seq<byte>)
    requires n <= |syms|
    ensures |b| == SYM_SIZE * n
  {
    if n == 0 then [] else SymtabBytes(syms, n - 1) + SymBytes(syms[n - 1])
  }

  /** The symbol's index in the high half, the type in the low half. */
  function RelocInfo(r: Relocation): nat { (r.symbol % TWO32) * TWO32 + r.kind }

  function RelocBytes(r: Relocation): (b: seq<byte>)
    ensures |b| == RELA_SIZE
  {
    Le(r.offset, 8) + Le(RelocInfo(r), 8) + Le(r.addend % TWO64, 8)
  }

  function RelaBytes(relocs: seq<Relocation>, n: nat): (b: seq<byte>)
    requires n <= |relocs|
    ensures |b| == RELA_SIZE * n
  {
    if n == 0 then [] else RelaBytes(relocs, n - 1) + RelocBytes(relocs[n - 1])
  }

  // ---- layout ----

  /** Does the section take up bytes in the file? */
  predicate Occupies(s: Sec) { s.data != [] && s.kind != SHT_NULL && s.kind != SHT_NOBITS }

  /** An alignment of 0 or 1 asks for no padding. */
  function Padded(x: nat, a: nat): (r: nat)
    ensures r >= x
  {
    if a > 1 then AlignUp(x, a) else x
  }

  /** The first free file offset after the first `i` sections. */
  function After(secs: seq<Sec>, start: nat, i: nat): (o: nat)
    requires i <= |secs|
    ensures o >= start
  {
    if i == 0 then start
    else
      var o := After(secs, start, i - 1);
      if Occupies(secs[i - 1]) then Padded(o, secs[i - 1].align) + |secs[i - 1].data| else o
  }

  function OffsetOf(secs: seq<Sec>, start: nat, i: nat): nat
    requires i < |secs|
  {
    if Occupies(secs[i]) then Padded(After(secs, start, i), secs[i].align) else 0
  }

  /** The bytes of the first `i` sections, with the padding between them. */
  function Body(secs: seq<Sec>, start: nat, i: nat): (b: seq<byte>)
    requires i <= |secs|
    ensures |b| == After(secs, start, i) - start
  {
    if i == 0 then []
    else
      var o := After(secs, start, i - 1);
      if Occupies(secs[i - 1])
      then Body(secs, start, i - 1) + Zeros(Padded(o, secs[i - 1].align) - o) + secs[i - 1].data
      else Body(secs, start, i - 1)
  }

  function HeaderBytes(s: Sec, nameOff: nat, offset: nat): (b: seq<byte>)
    ensures |b| == SHDR_SIZE
  {
    Le(nameOff, 4) + Le(s.kind, 4) + Le(s.flags, 8) + Le(s.addr, 8) + Le(offset, 8) + Le(|s.data|, 8)
    + Le(s.link, 4) + Le(s.info, 4) + Le(s.align, 8) + Le(s.entsize, 8)
  }

  function Headers(secs: seq<Sec>, start: nat, i: nat): (b: seq<byte>)
    requires i <= |secs|
    ensures |b| == SHDR_SIZE * i
  {
    if i == 0 then []
    else Headers(secs, start, i - 1) + HeaderBytes(secs[i - 1], NameAt(secs, i - 1), OffsetOf(secs, start, i - 1))
  }

  // ---- the file ----

  function Start(obj: ObjectFile): nat { ELF_HEADER_SIZE + if obj.isExecutable then PHDR_SIZE else 0 }

  /** File offset of the section headers. */
  function Shoff(obj: ObjectFile): nat {
    AlignUp(After(Sections(obj), Start(obj), |Sections(obj)|), 8)
  }

  predicate EntryName(name: string) { name == "_start" || name == "main" || name == "kernel_main" }

  /** The entry point: the last symbol with one of the three names, among the first `n`. */
  function Entry(obj: ObjectFile, n: nat): nat
    requires n <= |obj.globalSymbols|
  {
    if n == 0 then 0
    else
      var s := obj.globalSymbols[n - 1];
      if EntryName(s.name) then
        (if obj.isExecutable then SectionAddr(obj, if s.sectionIdx > 0 then s.sectionIdx else 1) + s.value
          else s.value) % TWO64
      else Entry(obj, n - 1)
  }

  function Ident(): (b: seq<byte>)
    ensures |b| == 16
  {
    Le(ELF_MAGIC, 4) + Le(2, 1) + Le(1, 1) + Le(1, 1) + Le(0, 1) + Le(0, 1) + Zeros(7)
  }

  function TypeFields(exec: bool, entry: nat): (b: seq<byte>)
    ensures |b| == 16
  {
    Le(if exec then ET_EXEC else ET_REL, 2) + Le(EM_HVM, 2) + Le(1, 4) + Le(entry, 8)
  }

  function SizeFields(exec: bool, count: nat): (b: seq<byte>)
    requires count > 0
    ensures |b| == 16
  {
    Le(0, 4) + Le(ELF_HEADER_SIZE, 2) + Le(if exec then PHDR_SIZE else 0, 2) + Le(if exec then 1 else 0, 2)
    + Le(SHDR_SIZE, 2) + Le(count, 2) + Le(count - 1, 2)
  }

  function FileHeader(obj: ObjectFile): (b: seq<byte>)
    ensures |b| == ELF_HEADER_SIZE
  {
    Ident() + TypeFields(obj.isExecutable, Entry(obj, |obj.globalSymbols|))
    + Le(if obj.isExecutable then ELF_HEADER_SIZE else 0, 8) + Le(Shoff(obj), 8)
    + SizeFields(obj.isExecutable, |Sections(obj)|)
  }

  function IsAlloc(s: Sec): bool { s.flags / 2 % 2 == 1 }

  /** Extent of the allocated sections among the first `i`, in the file and in memory. */
  datatype Span = Span(firstOff: nat, lastEnd: nat, minAddr: nat, maxAddr: nat)

  /** The extent with one more allocated section in it; a section without an offset has no place in the file. */
  function Cover(sp: Span, offset: nat, size: nat, addr: nat): Span {
    Span(if 0 < offset < sp.firstOff then offset else sp.firstOff,
         if offset + size > sp.lastEnd then offset + size else sp.lastEnd,
         if addr < sp.minAddr then addr else sp.minAddr,
         if addr + size > sp.maxAddr then addr + size else sp.maxAddr)
  }

  function SpanOf(secs: seq<Sec>, start: nat, i: nat): Span
    requires i <= |secs|
  {
    if i == 0 then Span(TWO64 - 1, 0, TWO64 - 1, 0)
    else if !IsAlloc(secs[i - 1]) then SpanOf(secs, start, i - 1)
    else Cover(SpanOf(secs, start, i - 1), OffsetOf(secs, start, i - 1), |secs[i - 1].data|, secs[i - 1].addr)
  }

  function PhdrBytes(offset: nat, vaddr: nat, filesz: nat, memsz: nat): (b: seq<byte>)
    ensures |b| == PHDR_SIZE
  {
    Le(1, 4) + Le(7, 4) + Le(offset, 8) + Le(vaddr, 8) + Le(vaddr, 8) + Le(filesz, 8) + Le(memsz, 8) + Le(0x1000, 8)
  }

  function ProgramHeader(obj: ObjectFile): (b: seq<byte>)
    ensures |b| == if obj.isExecutable then PHDR_SIZE else 0
  {
    if !obj.isExecutable then []
    else
      var sp := SpanOf(Sections(obj), Start(obj), |Sections(obj)|);
      PhdrBytes(sp.firstOff, sp.minAddr, (sp.lastEnd - sp.firstOff) % TWO64, (sp.maxAddr - sp.minAddr) % TWO64)
  }

  function ElfFile(obj: ObjectFile): seq<byte> {
    var secs, start := Sections(obj), Start(obj);
    FileHeader(obj) + ProgramHeader(obj) + Body(secs, start, |secs|)
    + Zeros(Shoff(obj) - After(secs, start, |secs|)) + Headers(secs, start, |secs|)
  }
}
