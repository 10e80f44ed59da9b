/**
  The ELF writer as the program runs it: byte vectors grown by appending, section records
  collected in order, then patched with their file offsets.
 */
module ElfWriter {
  import opened Words
  import opened Elf

  /** A section record under construction. */
  datatype ElfSec = ElfSec(nameOff: nat, kind: nat, flags: nat, addr: nat, offset: nat, size: nat,
                           link: nat, info: nat, align: nat, entsize: nat, data: seq<byte>)

  function Record(s: Sec, nameOff: nat, offset: nat): ElfSec {
    ElfSec(nameOff, s.kind, s.flags, s.addr, offset, |s.data|, s.link, s.info, s.align, s.entsize, s.data)
  }

  // ---- byte vectors ----

  class Bytes {
    var buf: seq<byte>

    constructor ()
      ensures buf == []
    {
      buf := [];
    }

    method W8(v: nat)
      modifies this
      ensures buf == old(buf) + Le(v, 1)
    {
      buf := buf + [v % 256];
      assert Le(v, 1) == [v % 256] + Le(v / 256, 0);
    }

    method W16le(v: nat)
      modifies this
      ensures buf == old(buf) + Le(v, 2)
    {
      W8(v % 256);
      W8(v / 256 % 256);
      assert Le(v, 2) == [v % 256] + Le(v / 256, 1);
      assert Le(v % 256, 1) == [v % 256] + Le(0, 0);
      assert Le(v / 256, 1) == [v / 256 % 256] + Le(v / 256 / 256, 0);
      assert Le(v / 256 % 256, 1) == [v / 256 % 256] + Le(0, 0);
    }

    method W32le(v: nat)
      modifies this
      ensures buf == old(buf) + Le(v, 4)
    {
      hide Le;
      W16le(v % 0x1_0000);
      W16le(v / 0x1_0000 % 0x1_0000);
      Pow256Values();
      LeConcat(v % 0x1_0000, v / 0x1_0000, 2, 2);
      LeTruncates(v / 0x1_0000, 2, 0x1_0000);
    }

    method W64le(v: nat)
      modifies this
      ensures buf == old(buf) + Le(v, 8)
    {
      hide Le;
      W32le(v % TWO32);
      W32le(v / TWO32 % TWO32);
      Pow256Values();
      LeConcat(v % TWO32, v / TWO32, 4, 4);
      LeTruncates(v / TWO32, 4, TWO32);
    }

    method Append(b: seq<byte>)
      modifies this
      ensures buf == old(buf) + b
    {
      buf := buf + b;
    }

    /** Pads with zeros up to a position. */
    method PadTo(pos: nat)
      modifies this
      ensures buf == old(buf) + Zeros(if pos > |old(buf)| then pos - |old(buf)| else 0)
    {
      ghost var was := buf;
      while |buf| < pos
        invariant |was| <= |buf| && buf == was + Zeros(|buf| - |was|)
        invariant |buf| <= pos || buf == was
      {
        ghost var k := |buf| - |was|;
        assert Zeros(k) + [0] == Zeros(k + 1);
        buf := buf + [0];
      }
    }

    method AddStr(s: string) returns (off: nat)
      modifies this
      ensures buf == old(buf) + Chars(s) + [0]
      ensures off == |old(buf)| % TWO32
    {
      off := |buf| % TWO32;
      buf := buf + Chars(s);
      buf := buf + [0];
    }

    method WPhdr(kind: nat, flags: nat, offset: nat, vaddr: nat, filesz: nat, memsz: nat, align: nat)
      modifies this
      ensures buf == old(buf) + Le(kind, 4) + Le(flags, 4) + Le(offset, 8) + Le(vaddr, 8) + Le(vaddr, 8)
                     + Le(filesz, 8) + Le(memsz, 8) + Le(align, 8)
    {
      hide Le;
      W32le(kind);
      W32le(flags);
      W64le(offset);
      W64le(vaddr);
      W64le(vaddr);
      W64le(filesz);
      W64le(memsz);
      W64le(align);
    }
  }

  // ---- the section list ----

  function Records(secs: seq<Sec>): (r: seq<ElfSec>)
    ensures |r| == |secs|
  {
    seq(|secs|, i requires 0 <= i < |secs| => Record(secs[i], NameAt(secs, i), 0))
  }

  lemma RecordsAppend(secs: seq<Sec>, s: Sec)
    ensures Records(secs + [s]) == Records(secs) + [Record(s, |NameTable(secs)|, 0)]
    ensures NameTable(secs + [s]) == NameTable(secs) + s.name + [0]
  {
    var more := secs + [s];
    assert more[..|secs|] == secs;
    forall i | 0 <= i < |secs| ensures NameAt(more, i) == NameAt(secs, i) {
      assert more[..i] == secs[..i];
    }
  }

  class SectionTable {
    var names: seq<byte>
    var secs: seq<ElfSec>
    ghost var built: seq<Sec>

    ghost predicate Valid()
      reads this
    {
      names == NameTable(built) && secs == Records(built) && |names| < TWO32
    }

    constructor ()
      ensures Valid() && built == []
    {
      names := [];
      secs := [];
      built := [];
    }

    /** Adds the name to the string table and the record to the list. */
    method Add(name: string, kind: nat, flags: nat, addr: nat, link: nat, info: nat, align: nat, entsize: nat,
               data: seq<byte>)
      requires Valid() && |names| + |name| + 1 < TWO32
      modifies this
      ensures Valid() && |names| == old(|names|) + |name| + 1
      ensures built == old(built) + [Sec(Chars(name), kind, flags, addr, link, info, align, entsize, data)]
    {
      hide Records; hide Chars;
      var tab := new Bytes();
      tab.Append(names);
      var sn := tab.AddStr(name);
      ghost var s := Sec(Chars(name), kind, flags, addr, link, info, align, entsize, data);
      RecordsAppend(built, s);
      secs := secs + [ElfSec(sn, kind, flags, addr, 0, |data|, link, info, align, entsize, data)];
      names := tab.buf;
      built := built + [s];
    }

    /** The name table itself is the last section: its own name is in it. */
    method AddNames()
      requires Valid() && |names| + 10 < TWO32
      modifies this
      ensures Valid() && built == old(built) + [ShstrtabSec(old(built))]
    {
      hide Records; hide Chars;
      var tab := new Bytes();
      tab.Append(names);
      var sn := tab.AddStr(".shstrtab");
      ghost var s := ShstrtabSec(built);
      RecordsAppend(built, s);
      secs := secs + [ElfSec(sn, SHT_STRTAB, 0, 0, 0, |tab.buf|, 0, 0, 1, 0, tab.buf)];
      names := tab.buf;
      built := built + [s];
    }
  }

  // ---- the parts of the file ----

  /** A later section of the same name replaces an earlier one. */
  method CollectData(obj: ObjectFile)
    returns (text: seq<byte>, data: seq<byte>, rodata: seq<byte>, relocs: seq<Relocation>)
    ensures text == TextData(obj) && data == DataData(obj) && rodata == RodataData(obj)
    ensures relocs == LastNamed(obj.sections, ".text").relocs
  {
    text, data, rodata, relocs := [], [], [], [];
    for i := 0 to |obj.sections|
      invariant text == LastNamed(obj.sections[..i], ".text").data
      invariant relocs == LastNamed(obj.sections[..i], ".text").relocs
      invariant data == LastNamed(obj.sections[..i], ".data").data
      invariant rodata == LastNamed(obj.sections[..i], ".rodata").data
    {
      var s := obj.sections[i];
      assert obj.sections[..i + 1][..i] == obj.sections[..i];
      assert ".text" != ".data" && ".text" != ".rodata" && ".data" != ".rodata" by {
        assert |".text"| == 5 && |".data"| == 5 && |".rodata"| == 7 && ".text"[1] != ".data"[1];
      }
      if s.name == ".text" {
        text := s.data;
        relocs := s.relocs;
      } else if s.name == ".data" {
        data := s.data;
      } else if s.name == ".rodata" {
        rodata := s.data;
      }
    }
    assert obj.sections[..|obj.sections|] == obj.sections;
  }

  /** The symbol list, with its names collected in the string table. */
  method BuildSymbols(obj: ObjectFile) returns (syms: seq<Sym>, strtab: seq<byte>)
    ensures syms == Syms(obj) && strtab == SymbolNames(obj.globalSymbols, |obj.globalSymbols|)
  {
    syms := [Sym(0, 0, 0, 0, 0)];
    for i := 1 to 5
      invariant |syms| == i && syms == Syms(obj)[..i]
    {
      syms := syms + [Sym(0, STT_SECTION, i, 0, 0)];
    }
    var names := new Bytes();
    for j := 0 to |obj.globalSymbols|
      invariant syms == Syms(obj)[..5 + j]
      invariant names.buf == SymbolNames(obj.globalSymbols, j)
    {
      var gs := obj.globalSymbols[j];
      var name := names.AddStr(gs.name);
      var info := (if gs.isGlobal then 16 else 0) + (if gs.isFunction then STT_FUNC else STT_OBJECT);
      var shndx := (if gs.sectionIdx > 0 then gs.sectionIdx else 1) % 0x1_0000;
      var value := (if obj.isExecutable then SectionAddr(obj, gs.sectionIdx) + gs.value else gs.value) % TWO64;
      syms := syms + [Sym(name, info, shndx, value, gs.size)];
      assert Syms(obj)[5 + j] == GlobalSym(obj, j);
    }
    strtab := names.buf;
    assert Syms(obj)[..|Syms(obj)|] == Syms(obj);
  }

  method WriteSymtab(syms: seq<Sym>) returns (data: seq<byte>)
    ensures data == SymtabBytes(syms, |syms|)
  {
    hide Le;
    var out := new Bytes();
    for i := 0 to |syms|
      invariant out.buf == SymtabBytes(syms, i)
    {
      var s := syms[i];
      ghost var was := out.buf;
      out.W32le(s.name);
      out.W8(s.info);
      out.W8(0);
      out.W16le(s.shndx);
      out.W64le(s.value);
      out.W64le(s.size);
      assert out.buf == was + SymBytes(s);
    }
    data := out.buf;
  }

  method WriteRela(relocs: seq<Relocation>) returns (data: seq<byte>)
    ensures data == RelaBytes(relocs, |relocs|)
  {
    hide Le;
    var out := new Bytes();
    for i := 0 to |relocs|
      invariant out.buf == RelaBytes(relocs, i)
    {
      var r := relocs[i];
      ghost var was := out.buf;
      out.W64le(r.offset);
      var symIdx := r.symbol % TWO32;
      out.W64le(symIdx * TWO32 + r.kind);
      assert symIdx * TWO32 + r.kind == RelocInfo(r);
      out.W64le(r.addend % TWO64);
      assert out.buf == was + RelocBytes(r);
    }
    data := out.buf;
  }

  /** Every section starts at the next multiple of 8. */
  method SectionAddresses(obj: ObjectFile, text: nat, rodata: nat, data: nat)
      returns (rodataAddr: nat, dataAddr: nat, bssAddr: nat)
    requires text == |TextData(obj)| && rodata == |RodataData(obj)| && data == |DataData(obj)|
    ensures rodataAddr == RodataAddr(obj) && dataAddr == DataAddr(obj) && bssAddr == BssAddr(obj)
  {
    rodataAddr := BaseAddr(obj) + text + 7;
    rodataAddr := rodataAddr - rodataAddr % 8;
    dataAddr := rodataAddr + rodata + 7;
    dataAddr := dataAddr - dataAddr % 8;
    bssAddr := dataAddr + data + 7;
    bssAddr := bssAddr - bssAddr % 8;
    MaskIsAlignUp(BaseAddr(obj) + text);
    MaskIsAlignUp(rodataAddr + rodata);
    MaskIsAlignUp(dataAddr + data);
  }

  /** All section records in file order, before they are given a place. */
  method BuildSections(obj: ObjectFile) returns (table: SectionTable)
    ensures fresh(table) && table.Valid() && table.built == Sections(obj)
  {
    hide Le; hide AlignUp;
    var text, data, rodata, relocs := CollectData(obj);
    var textAddr := BaseAddr(obj);
    var rodataAddr, dataAddr, bssAddr := SectionAddresses(obj, |text|, |rodata|, |data|);

    table := new SectionTable();
    table.Add("", SHT_NULL, 0, 0, 0, 0, 0, 0, []);
    assert table.built == [NullSec()];
    table.Add(".text", SHT_PROGBITS, ALLOC_EXEC, textAddr, 0, 0, 4, 0, text);
    table.Add(".rodata", SHT_PROGBITS, ALLOC, rodataAddr, 0, 0, 8, 0, rodata);
    table.Add(".data", SHT_PROGBITS, ALLOC_WRITE, dataAddr, 0, 0, 8, 0, data);
    table.Add(".bss", SHT_NOBITS, ALLOC_WRITE, bssAddr, 0, 0, 8, 0, []);
    var syms, strtab := BuildSymbols(obj);
    var symtab := WriteSymtab(syms);
    table.Add(".symtab", SHT_SYMTAB, 0, 0, 6, 1, 8, SYM_SIZE, symtab);
    table.Add(".strtab", SHT_STRTAB, 0, 0, 0, 0, 1, 0, strtab);
    if relocs != [] {
      var rela := WriteRela(relocs);
      table.Add(".rela.text", SHT_RELA, 0, 0, 5, 1, 8, RELA_SIZE, rela);
    }
    assert table.built == Front(obj);
    table.AddNames();
  }

  lemma MaskIsAlignUp(x: nat)
    ensures (x + 7) - (x + 7) % 8 == AlignUp(x, 8)
  {
  }

  /** Gives every section with bytes its aligned place; the others keep offset 0. */
  method Layout(table: SectionTable, start: nat) returns (end: nat)
    requires table.Valid()
    modifies table
    ensures table.built == old(table.built) && end == After(table.built, start, |table.built|)
    ensures table.secs == Placed(table.built, start, |table.built|)
  {
    hide Le; hide NameTable;
    ghost var spec := table.built;
    var offset := start;
    for i := 0 to |table.secs|
      invariant table.built == spec && |table.secs| == |spec|
      invariant offset == After(spec, start, i)
      invariant table.secs == Placed(spec, start, i)
    {
      var sec := table.secs[i];
      assert sec == Record(spec[i], NameAt(spec, i), 0);
      PlacedNext(spec, start, i);
      if !(sec.kind == SHT_NULL || sec.kind == SHT_NOBITS || sec.data == []) {
        assert Occupies(spec[i]);
        if sec.align > 1 {
          var mis := offset % sec.align;
          if mis != 0 { offset := offset + (sec.align - mis); }
        }
        assert offset == OffsetOf(spec, start, i);
        table.secs := table.secs[i := sec.(offset := offset)];
        offset := offset + |sec.data|;
      }
    }
    end := offset;
  }

  lemma PlacedNext(secs: seq<Sec>, start: nat, i: nat)
    requires i < |secs|
    ensures Placed(secs, start, i)[i] == Record(secs[i], NameAt(secs, i), 0)
    ensures Placed(secs, start, i + 1) ==
      Placed(secs, start, i)[i := Record(secs[i], NameAt(secs, i), OffsetOf(secs, start, i))]
  {
    hide OffsetOf; hide NameAt;
  }

  /** The records once the first `n` have their offsets. */
  function Placed(secs: seq<Sec>, start: nat, n: nat): (r: seq<ElfSec>)
    requires n <= |secs|
    ensures |r| == |secs|
  {
    seq(|secs|, i requires 0 <= i < |secs| =>
      Record(secs[i], NameAt(secs, i), if i < n then OffsetOf(secs, start, i) else 0))
  }

  method EntryPoint(obj: ObjectFile) returns (entry: nat)
    ensures entry == Entry(obj, |obj.globalSymbols|)
  {
    entry := 0;
    for i := 0 to |obj.globalSymbols|
      invariant entry == Entry(obj, i)
    {
      var gs := obj.globalSymbols[i];
      if gs.name == "_start" || gs.name == "main" || gs.name == "kernel_main" {
        var si := if gs.sectionIdx > 0 then gs.sectionIdx else 1;
        entry := (if obj.isExecutable then SectionAddr(obj, si) + gs.value else gs.value) % TWO64;
      }
    }
  }

  method WriteHeader(out: Bytes, obj: ObjectFile, shoff: nat, count: nat)
    requires count > 0 && shoff == Shoff(obj) && count == |Sections(obj)|
    modifies out
    ensures out.buf == old(out.buf) + FileHeader(obj)
  {
    hide Le; hide Shoff; hide Sections; hide Entry; hide Ident; hide TypeFields; hide SizeFields;
    ghost var was := out.buf;
    WriteIdent(out);
    var entry := EntryPoint(obj);
    WriteTypeFields(out, obj.isExecutable, entry);
    out.W64le(if obj.isExecutable then ELF_HEADER_SIZE else 0);
    out.W64le(shoff);
    WriteSizeFields(out, obj.isExecutable, count);
    assert out.buf == was + FileHeader(obj);
  }

  method WriteTypeFields(out: Bytes, exec: bool, entry: nat)
    modifies out
    ensures out.buf == old(out.buf) + TypeFields(exec, entry)
  {
    hide Le;
    ghost var was := out.buf;
    out.W16le(if exec then ET_EXEC else ET_REL);
    out.W16le(EM_HVM);
    out.W32le(1);
    out.W64le(entry);
    assert out.buf == was + TypeFields(exec, entry);
  }

  method WriteSizeFields(out: Bytes, exec: bool, count: nat)
    requires count > 0
    modifies out
    ensures out.buf == old(out.buf) + SizeFields(exec, count)
  {
    hide Le;
    ghost var was := out.buf;
    out.W32le(0);
    out.W16le(ELF_HEADER_SIZE);
    out.W16le(if exec then PHDR_SIZE else 0);
    out.W16le(if exec then 1 else 0);
    out.W16le(SHDR_SIZE);
    out.W16le(count);
    out.W16le(count - 1);
    assert out.buf == was + SizeFields(exec, count);
  }

  method WriteIdent(out: Bytes)
    modifies out
    ensures out.buf == old(out.buf) + Ident()
  {
    hide Le;
    ghost var was := out.buf;
    out.W32le(ELF_MAGIC);
    out.W8(2);
    out.W8(1);
    out.W8(1);
    out.W8(0);
    out.W8(0);
    out.PadTo(|out.buf| + 7);
    assert out.buf == was + Ident();
  }

  method FindSpan(secs: seq<ElfSec>, ghost spec: seq<Sec>, ghost start: nat) returns (span: Span)
    requires secs == Placed(spec, start, |spec|)
    ensures span == SpanOf(spec, start, |spec|)
  {
    hide OffsetOf; hide NameAt;
    var firstSecOff: nat, lastSecEnd: nat, minVaddr: nat, maxVaddr: nat := TWO64 - 1, 0, TWO64 - 1, 0;
    for i := 0 to |secs|
      invariant Span(firstSecOff, lastSecEnd, minVaddr, maxVaddr) == SpanOf(spec, start, i)
    {
      var sec := secs[i];
      if sec.flags / 2 % 2 == 1 {
        if sec.offset > 0 && sec.offset < firstSecOff { firstSecOff := sec.offset; }
        if sec.offset + sec.size > lastSecEnd { lastSecEnd := sec.offset + sec.size; }
        if sec.addr < minVaddr { minVaddr := sec.addr; }
        if sec.addr + sec.size > maxVaddr { maxVaddr := sec.addr + sec.size; }
      }
    }
    span := Span(firstSecOff, lastSecEnd, minVaddr, maxVaddr);
  }

  /** One loadable segment, from the first placed allocated byte to the last. */
  method WriteProgramHeader(out: Bytes, obj: ObjectFile, secs: seq<ElfSec>)
    requires obj.isExecutable && secs == Placed(Sections(obj), Start(obj), |Sections(obj)|)
    modifies out
    ensures out.buf == old(out.buf) + ProgramHeader(obj)
  {
    hide Le; hide Sections; hide SpanOf; hide Placed;
    var sp := FindSpan(secs, Sections(obj), Start(obj));
    var fileSize := (sp.lastEnd - sp.firstOff) % TWO64;
    var memSize := (sp.maxAddr - sp.minAddr) % TWO64;
    ghost var was := out.buf;
    out.WPhdr(1, 7, sp.firstOff, sp.minAddr, fileSize, memSize, 0x1000);
    assert out.buf == was + ProgramHeader(obj);
  }

  method WriteBody(out: Bytes, secs: seq<ElfSec>, ghost spec: seq<Sec>)
    requires secs == Placed(spec, |out.buf|, |spec|)
    requires forall i | 0 <= i < |spec| :: spec[i].kind == SHT_NULL ==> spec[i].data == []
    modifies out
    ensures out.buf == old(out.buf) + Body(spec, |old(out.buf)|, |spec|)
  {
    hide Padded;
    ghost var was, start := out.buf, |out.buf|;
    for i := 0 to |secs|
      invariant out.buf == was + Body(spec, start, i)
    {
      var sec := secs[i];
      ghost var before := Body(spec, start, i);
      assert sec.data == spec[i].data && sec.kind == spec[i].kind && sec.offset == OffsetOf(spec, start, i);
      if sec.data != [] && sec.kind != SHT_NOBITS {
        assert Occupies(spec[i]);
        out.PadTo(sec.offset);
        out.Append(sec.data);
        assert out.buf == was + (before + Zeros(sec.offset - |was + before|) + sec.data);
      }
    }
  }

  lemma OnlyNullIsNull(obj: ObjectFile)
    ensures forall i | 0 <= i < |Sections(obj)| :: Sections(obj)[i].kind == SHT_NULL ==> Sections(obj)[i].data == []
  {
  }

  method WriteSectionHeaders(out: Bytes, secs: seq<ElfSec>, ghost spec: seq<Sec>, ghost start: nat)
    requires secs == Placed(spec, start, |spec|)
    modifies out
    ensures out.buf == old(out.buf) + Headers(spec, start, |spec|)
  {
    hide Le;
    ghost var was := out.buf;
    for i := 0 to |secs|
      invariant out.buf == was + Headers(spec, start, i)
    {
      ghost var before := out.buf;
      WriteSectionHeader(out, secs[i], spec[i]);
      assert out.buf == was + Headers(spec, start, i + 1);
    }
  }

  method WriteSectionHeader(out: Bytes, sec: ElfSec, ghost spec: Sec)
    requires sec == Record(spec, sec.nameOff, sec.offset)
    modifies out
    ensures out.buf == old(out.buf) + HeaderBytes(spec, sec.nameOff, sec.offset)
  {
    hide Le;
    out.W32le(sec.nameOff);
    out.W32le(sec.kind);
    out.W64le(sec.flags);
    out.W64le(sec.addr);
    out.W64le(sec.offset);
    out.W64le(sec.size);
    out.W32le(sec.link);
    out.W32le(sec.info);
    out.W64le(sec.align);
    out.W64le(sec.entsize);
    assert out.buf == old(out.buf) + HeaderBytes(spec, sec.nameOff, sec.offset);
  }

  method WriteElf(obj: ObjectFile) returns (file: seq<byte>)
    ensures file == ElfFile(obj)
  {
    hide Le; hide FileHeader; hide ProgramHeader; hide Body; hide Headers; hide Placed; hide Sections; hide After;
    var table := BuildSections(obj);
    ghost var spec := table.built;
    var start := ELF_HEADER_SIZE + if obj.isExecutable then PHDR_SIZE else 0;
    var end := Layout(table, start);
    var secs := table.secs;
    var shoff := end;
    if shoff % 8 != 0 { shoff := shoff + (8 - shoff % 8); }

    var out := new Bytes();
    WriteHeader(out, obj, shoff, |secs|);
    if obj.isExecutable {
      WriteProgramHeader(out, obj, secs);
    }
    assert out.buf == FileHeader(obj) + ProgramHeader(obj);
    OnlyNullIsNull(obj);
    WriteBody(out, secs, spec);
    out.PadTo(shoff);
    WriteSectionHeaders(out, secs, spec, start);
    file := out.buf;
  }

  method WriteExecutable(obj: ObjectFile) returns (file: seq<byte>)
    ensures file == ElfFile(obj.(isExecutable := true))
  {
    file := WriteElf(obj.(isExecutable := true));
  }
}
