/**
  A reader that follows the ELF header recovers every section from the bytes of the file, and
  a loader that follows the program header puts every allocated section at its address.
 */
module ElfTheorems {
  import opened Ast
  import opened Words
  import opened Elf

  // ---- a reader ----

  datatype RawHeader = RawHeader(name: nat, kind: nat, flags: nat, addr: nat, offset: nat, size: nat,
                                 link: nat, info: nat, align: nat, entsize: nat)

  function Word(f: seq<byte>, p: nat, k: nat): nat
    requires p + k <= |f|
  {
    FromLe(f[p..p + k])
  }

  /** The section header of the System V gABI, chapter 4, at position `p`. */
  function ReadHeader(f: seq<byte>, p: nat): Option<RawHeader> {
    if p + 64 > |f| then None
    else Some(RawHeader(Word(f, p, 4), Word(f, p + 4, 4), Word(f, p + 8, 8), Word(f, p + 16, 8), Word(f, p + 24, 8),
                        Word(f, p + 32, 8), Word(f, p + 40, 4), Word(f, p + 44, 4), Word(f, p + 48, 8),
                        Word(f, p + 56, 8)))
  }

  /** The NUL-terminated string at an offset of a string table. */
  function StringAt(tab: seq<byte>, off: nat): Option<seq<byte>>
    decreases |tab| - off
  {
    if off >= |tab| then None
    else if tab[off] == 0 then Some([])
    else
      match StringAt(tab, off + 1)
      case None => None
      case Some(s) => Some([tab[off]] + s)
  }

  function Slice(f: seq<byte>, off: nat, size: nat): Option<seq<byte>> {
    if off + size <= |f| then Some(f[off..off + size]) else None
  }

  /** The section whose header is at `p`; a section without file space has no data. */
  function ReadSec(f: seq<byte>, p: nat, names: seq<byte>): Option<Sec> {
    match ReadHeader(f, p)
    case None => None
    case Some(h) =>
      var data := if h.kind == SHT_NOBITS then Some([]) else Slice(f, h.offset, h.size);
      var name := StringAt(names, h.name);
      if data.None? || name.None? then None
      else Some(Sec(name.value, h.kind, h.flags, h.addr, h.link, h.info, h.align, h.entsize, data.value))
  }

  function ReadSecs(f: seq<byte>, shoff: nat, entsize: nat, names: seq<byte>, n: nat): Option<seq<Sec>> {
    if n == 0 then Some([])
    else
      var rest, s := ReadSecs(f, shoff, entsize, names, n - 1), ReadSec(f, shoff + entsize * (n - 1), names);
      if rest.None? || s.None? then None else Some(rest.value + [s.value])
  }

  /** Follows e_shoff, e_shentsize, e_shnum and e_shstrndx. */
  function ReadElf(f: seq<byte>): Option<seq<Sec>> {
    if |f| < 64 then None
    else
      var shoff, entsize, n, strndx := Word(f, 40, 8), Word(f, 58, 2), Word(f, 60, 2), Word(f, 62, 2);
      match ReadHeader(f, shoff + entsize * strndx)
      case None => None
      case Some(h) =>
        match Slice(f, h.offset, h.size)
        case None => None
        case Some(names) => ReadSecs(f, shoff, entsize, names, n)
  }

  // ---- words in a file ----

  lemma WordAt(a: seq<byte>, v: nat, k: nat, b: seq<byte>)
    requires v < Pow256(k)
    ensures Word(a + Le(v, k) + b, |a|, k) == v
  {
    FromLeOfLe(v, k);
    hide Le; hide FromLe;
    assert (a + Le(v, k) + b)[|a|..|a| + k] == Le(v, k);
  }

  lemma WordInside(f: seq<byte>, p: nat, n: nat, q: nat, k: nat)
    requires p + n <= |f| && q + k <= n
    ensures Word(f, p + q, k) == Word(f[p..p + n], q, k)
  {
    hide FromLe;
    var g := f[p..p + n];
    assert g == f[p..][..n];
    assert f[p..][..n][q..q + k] == f[p..][q..q + k];
    assert f[p + q..p + q + k] == g[q..q + k];
  }

  /** Do the values fit their fields, and is the name short and free of NUL? */
  predicate Fitting(s: Sec) {
    s.kind < TWO32 && s.flags < TWO64 && s.addr < TWO64 && s.link < TWO32 && s.info < TWO32 && s.align < TWO64
    && s.entsize < TWO64 && |s.data| < TWO64 && |s.name| <= 10 && 0 !in s.name
  }

  lemma HeaderHead(s: Sec, nameOff: nat, offset: nat)
    requires Fitting(s) && nameOff < TWO32 && offset < TWO64
    ensures var b := HeaderBytes(s, nameOff, offset);
      Word(b, 0, 4) == nameOff && Word(b, 4, 4) == s.kind && Word(b, 8, 8) == s.flags && Word(b, 16, 8) == s.addr
      && Word(b, 24, 8) == offset
  {
    Pow256Values();
    hide Le; hide Word; hide Pow256;
    var b := HeaderBytes(s, nameOff, offset);
    var p1 := Le(nameOff, 4);
    var p2 := p1 + Le(s.kind, 4);
    var p3 := p2 + Le(s.flags, 8);
    var p4 := p3 + Le(s.addr, 8);
    var p5 := p4 + Le(offset, 8);
    WordAt([], nameOff, 4, b[4..]);
    assert b == [] + p1 + b[4..];
    WordAt(p1, s.kind, 4, b[8..]);
    assert b == p2 + b[8..];
    WordAt(p2, s.flags, 8, b[16..]);
    assert b == p3 + b[16..];
    WordAt(p3, s.addr, 8, b[24..]);
    assert b == p4 + b[24..];
    WordAt(p4, offset, 8, b[32..]);
    assert b == p5 + b[32..];
  }

  lemma HeaderTail(s: Sec, nameOff: nat, offset: nat)
    requires Fitting(s)
    ensures var b := HeaderBytes(s, nameOff, offset);
      Word(b, 32, 8) == |s.data| && Word(b, 40, 4) == s.link && Word(b, 44, 4) == s.info && Word(b, 48, 8) == s.align
      && Word(b, 56, 8) == s.entsize
  {
    Pow256Values();
    hide Le; hide Word; hide Pow256;
    var b := HeaderBytes(s, nameOff, offset);
    var p0 := Le(nameOff, 4) + Le(s.kind, 4) + Le(s.flags, 8) + Le(s.addr, 8) + Le(offset, 8);
    var p1 := p0 + Le(|s.data|, 8);
    var p2 := p1 + Le(s.link, 4);
    var p3 := p2 + Le(s.info, 4);
    var p4 := p3 + Le(s.align, 8);
    WordAt(p0, |s.data|, 8, b[40..]);
    assert b == p1 + b[40..];
    WordAt(p1, s.link, 4, b[44..]);
    assert b == p2 + b[44..];
    WordAt(p2, s.info, 4, b[48..]);
    assert b == p3 + b[48..];
    WordAt(p3, s.align, 8, b[56..]);
    assert b == p4 + b[56..];
    WordAt(p4, s.entsize, 8, []);
    assert b == p4 + Le(s.entsize, 8) + [];
  }

  lemma HeaderReads(f: seq<byte>, p: nat, s: Sec, nameOff: nat, offset: nat)
    requires Fitting(s) && nameOff < TWO32 && offset < TWO64
    requires p + 64 <= |f| && f[p..p + 64] == HeaderBytes(s, nameOff, offset)
    ensures ReadHeader(f, p)
      == Some(RawHeader(nameOff, s.kind, s.flags, s.addr, offset, |s.data|, s.link, s.info, s.align, s.entsize))
  {
    HeaderHead(s, nameOff, offset);
    HeaderTail(s, nameOff, offset);
    hide Word; hide HeaderBytes;
    WordInside(f, p, 64, 0, 4);
    WordInside(f, p, 64, 4, 4);
    WordInside(f, p, 64, 8, 8);
    WordInside(f, p, 64, 16, 8);
    WordInside(f, p, 64, 24, 8);
    WordInside(f, p, 64, 32, 8);
    WordInside(f, p, 64, 40, 4);
    WordInside(f, p, 64, 44, 4);
    WordInside(f, p, 64, 48, 8);
    WordInside(f, p, 64, 56, 8);
  }

  // ---- names ----

  lemma {:induction false} StringReads(a: seq<byte>, s: seq<byte>, b: seq<byte>)
    requires 0 !in s
    ensures StringAt(a + s + [0] + b, |a|) == Some(s)
    decreases s
  {
    var tab := a + s + [0] + b;
    if s != [] {
      assert s[0] in s && tab[|a|] == s[0];
      StringReads(a + [s[0]], s[1..], b);
      assert a + [s[0]] + s[1..] == a + s;
      assert s == [s[0]] + s[1..];
    }
  }

  lemma {:induction false} NameTableSplits(secs: seq<Sec>, i: nat, n: nat) returns (b: seq<byte>)
    requires i < n <= |secs|
    ensures NameTable(secs[..n]) == NameTable(secs[..i]) + secs[i].name + [0] + b
    decreases n
  {
    assert secs[..n][..n - 1] == secs[..n - 1];
    if i == n - 1 {
      b := [];
    } else {
      var c := NameTableSplits(secs, i, n - 1);
      b := c + secs[n - 1].name + [0];
    }
  }

  lemma NameReads(secs: seq<Sec>, i: nat)
    requires i < |secs| && 0 !in secs[i].name
    ensures StringAt(NameTable(secs), NameAt(secs, i)) == Some(secs[i].name)
  {
    var b := NameTableSplits(secs, i, |secs|);
    assert secs[..|secs|] == secs;
    StringReads(NameTable(secs[..i]), secs[i].name, b);
  }

  lemma {:induction false} NameTableShort(secs: seq<Sec>)
    requires forall s | s in secs :: |s.name| <= 10
    ensures |NameTable(secs)| <= 11 * |secs|
  {
    if secs != [] {
      assert secs[|secs| - 1] in secs;
      NameTableShort(secs[..|secs| - 1]);
    }
  }

  // ---- places in the file ----

  lemma {:induction false} HeaderPlace(secs: seq<Sec>, start: nat, i: nat, n: nat)
    requires i < n <= |secs|
    ensures Headers(secs, start, n)[64 * i..64 * i + 64]
      == HeaderBytes(secs[i], NameAt(secs, i), OffsetOf(secs, start, i))
    decreases n
  {
    hide HeaderBytes; hide NameAt; hide OffsetOf;
    var last := Headers(secs, start, n);
    var init := Headers(secs, start, n - 1);
    if i == n - 1 {
      assert last[64 * i..64 * i + 64] == last[|init|..];
    } else {
      HeaderPlace(secs, start, i, n - 1);
      assert last[64 * i..64 * i + 64] == init[64 * i..64 * i + 64];
    }
  }

  lemma {:induction false} BodyPlace(secs: seq<Sec>, start: nat, i: nat, n: nat)
    requires i < n <= |secs| && Occupies(secs[i])
    ensures After(secs, start, i) <= OffsetOf(secs, start, i)
    ensures OffsetOf(secs, start, i) + |secs[i].data| <= After(secs, start, n)
    ensures var o := OffsetOf(secs, start, i) - start; Body(secs, start, n)[o..o + |secs[i].data|] == secs[i].data
    decreases n
  {
    hide Padded;
    var o := OffsetOf(secs, start, i) - start;
    var last, init := Body(secs, start, n), Body(secs, start, n - 1);
    if i == n - 1 {
      assert last[o..] == secs[i].data;
    } else {
      BodyPlace(secs, start, i, n - 1);
      assert last[o..o + |secs[i].data|] == init[o..o + |secs[i].data|];
    }
  }

  lemma FileParts(obj: ObjectFile)
    ensures var f, secs, start := ElfFile(obj), Sections(obj), Start(obj);
      |f| == Shoff(obj) + 64 * |secs| && start <= After(secs, start, |secs|) <= Shoff(obj)
      && f[..64] == FileHeader(obj) && f[64..start] == ProgramHeader(obj)
      && f[start..After(secs, start, |secs|)] == Body(secs, start, |secs|)
      && f[Shoff(obj)..] == Headers(secs, start, |secs|)
  {
    hide FileHeader; hide ProgramHeader; hide Sections; hide After; hide Body; hide Headers; hide AlignUp;
    var f, secs, start := ElfFile(obj), Sections(obj), Start(obj);
    var h, p, b, z, s := FileHeader(obj), ProgramHeader(obj), Body(secs, start, |secs|),
      Zeros(Shoff(obj) - After(secs, start, |secs|)), Headers(secs, start, |secs|);
    assert f == h + p + b + z + s;
    assert f[..64] == h;
    assert f[64..start] == p;
    assert f[start..start + |b|] == b;
    assert f[start + |b| + |z|..] == s;
  }

  lemma HeaderInFile(obj: ObjectFile, i: nat)
    requires i < |Sections(obj)|
    ensures var f, secs, start, p := ElfFile(obj), Sections(obj), Start(obj), Shoff(obj) + 64 * i;
      p + 64 <= |f| && f[p..p + 64] == HeaderBytes(secs[i], NameAt(secs, i), OffsetOf(secs, start, i))
  {
    FileParts(obj);
    hide FileHeader; hide ProgramHeader; hide Sections; hide After; hide Body; hide Shoff; hide ElfFile;
    hide HeaderBytes; hide NameAt;
    hide OffsetOf;
    var f, secs, start, p := ElfFile(obj), Sections(obj), Start(obj), Shoff(obj) + 64 * i;
    HeaderPlace(secs, start, i, |secs|);
    assert f[p..p + 64] == f[Shoff(obj)..][64 * i..64 * i + 64];
  }

  lemma SliceOfPart(f: seq<byte>, a: nat, b: nat, o: nat, n: nat, data: seq<byte>)
    requires a <= b <= |f| && a <= o && o + n <= b && |data| == n && f[a..b][o - a..o - a + n] == data
    ensures Slice(f, o, n) == Some(data)
  {
    var part := f[a..b];
    forall k | 0 <= k < n ensures f[o..o + n][k] == data[k] {
      assert data[k] == part[o - a + k] == f[o + k];
    }
    assert f[o..o + n] == data;
  }

  lemma OccupiedInFile(obj: ObjectFile, i: nat)
    requires i < |Sections(obj)| && Occupies(Sections(obj)[i])
    ensures var f, o := ElfFile(obj), OffsetOf(Sections(obj), Start(obj), i);
      o + |Sections(obj)[i].data| <= Shoff(obj) && Slice(f, o, |Sections(obj)[i].data|) == Some(Sections(obj)[i].data)
  {
    hide *;
    var f, secs, start := ElfFile(obj), Sections(obj), Start(obj);
    FileParts(obj);
    BodyPlace(secs, start, i, |secs|);
    SliceOfPart(f, start, After(secs, start, |secs|), OffsetOf(secs, start, i), |secs[i].data|, secs[i].data);
  }

  lemma DataInFile(obj: ObjectFile, i: nat)
    requires i < |Sections(obj)| && (Sections(obj)[i].data == [] || Occupies(Sections(obj)[i]))
    ensures var f, o := ElfFile(obj), OffsetOf(Sections(obj), Start(obj), i);
      o + |Sections(obj)[i].data| <= Shoff(obj) && Slice(f, o, |Sections(obj)[i].data|) == Some(Sections(obj)[i].data)
  {
    hide Sections; hide ElfFile; hide Shoff; hide Start; hide After; hide Padded;
    if Occupies(Sections(obj)[i]) {
      hide OffsetOf; hide Slice; hide Occupies;
      OccupiedInFile(obj, i);
    } else {
      assert ElfFile(obj)[0..0] == [];
    }
  }

  // ---- the read-back theorem ----

  /** How long the file is: up to its section headers, and those. `FileLength` says that it is. */
  function FileSize(obj: ObjectFile): nat { Shoff(obj) + SHDR_SIZE * |Sections(obj)| }

  /** No size or address reaches 2^64. */
  predicate Fits(obj: ObjectFile) { FileSize(obj) < TWO64 && BssAddr(obj) < TWO64 }

  lemma FixedNames()
    ensures forall s | s in {".text", ".rodata", ".data", ".bss", ".symtab", ".strtab", ".rela.text", ".shstrtab"} ::
      |Chars(s)| <= 10 && 0 !in Chars(s)
  {
    forall s, k | s in {".text", ".rodata", ".data", ".bss", ".symtab", ".strtab", ".rela.text", ".shstrtab"}
      && 0 <= k < |s|
      ensures s[k] as int % 256 != 0
    {
    }
  }

  lemma SectionsFit(obj: ObjectFile)
    requires Fits(obj)
    ensures forall s | s in Sections(obj) :: Fitting(s)
  {
    forall i | 0 <= i < |Sections(obj)| ensures Fitting(Sections(obj)[i]) {
      hide *;
      SizeFits(obj, i);
      FieldsFit(obj, i);
    }
    hide *;
  }

  lemma AddressesFit(obj: ObjectFile)
    requires Fits(obj)
    ensures BaseAddr(obj) <= RodataAddr(obj) <= DataAddr(obj) <= BssAddr(obj) < TWO64
  {
    hide ElfFile; hide LastNamed;
  }

  lemma SectionIs(obj: ObjectFile, i: nat)
    requires i < |Sections(obj)|
    ensures Sections(obj)[i]
      in {NullSec(), TextSec(obj), RodataSec(obj), DataSec(obj), BssSec(obj), SymtabSec(obj), StrtabSec(obj),
                                 RelaSec(obj), ShstrtabSec(Front(obj))}
  {
    hide TextSec; hide RodataSec; hide DataSec; hide BssSec; hide SymtabSec; hide StrtabSec; hide RelaSec;
    hide ShstrtabSec; hide NullSec;
  }

  lemma FieldsFit(obj: ObjectFile, i: nat)
    requires Fits(obj) && i < |Sections(obj)| && |Sections(obj)[i].data| < TWO64
    ensures Fitting(Sections(obj)[i])
  {
    FixedNames();
    AddressesFit(obj);
    SectionIs(obj, i);
    hide Chars; hide SymtabBytes; hide RelaBytes; hide SymbolNames; hide NameTable; hide Syms; hide LastNamed;
    hide ElfFile;
    hide RodataAddr; hide DataAddr; hide BssAddr; hide Sections; hide Front; hide TextData; hide RodataData;
    hide DataData; hide Fits;
  }

  lemma SizeFits(obj: ObjectFile, i: nat)
    requires Fits(obj) && i < |Sections(obj)|
    ensures |Sections(obj)[i].data| < TWO64
  {
    ShoffFits(obj);
    hide *;
    SectionHasPlace(obj, i);
    DataInFile(obj, i);
  }

  lemma ShoffFits(obj: ObjectFile)
    requires Fits(obj)
    ensures Shoff(obj) < TWO64
  {
    hide Sections; hide After; hide Shoff; hide BssAddr;
  }

  lemma SectionHasPlace(obj: ObjectFile, i: nat)
    requires i < |Sections(obj)|
    ensures Sections(obj)[i].data == [] || Occupies(Sections(obj)[i])
  {
  }

  lemma SectionNamesShort(obj: ObjectFile)
    requires Fits(obj)
    ensures forall i | 0 <= i < |Sections(obj)| :: NameAt(Sections(obj), i) < TWO32
  {
    SectionsFit(obj);
    hide Sections; hide NameTable;
    var secs := Sections(obj);
    forall i | 0 <= i < |secs| ensures NameAt(secs, i) < TWO32 {
      forall s | s in secs[..i] ensures s in secs { }
      NameTableShort(secs[..i]);
    }
  }

  /** The section name table of the file is the table of all names. */
  lemma NamesOfAll(obj: ObjectFile)
    ensures var secs := Sections(obj); secs[|secs| - 1].data == NameTable(secs) && secs[|secs| - 1].kind == SHT_STRTAB
  {
    hide Front;
    var secs := Sections(obj);
    assert secs[..|secs| - 1] == Front(obj);
  }

  lemma SecReadsFrom(f: seq<byte>, p: nat, names: seq<byte>, s: Sec, nameOff: nat, offset: nat)
    requires s.kind == SHT_NOBITS ==> s.data == []
    requires ReadHeader(f, p) ==
      Some(RawHeader(nameOff, s.kind, s.flags, s.addr, offset, |s.data|, s.link, s.info, s.align, s.entsize))
    requires Slice(f, offset, |s.data|) == Some(s.data) && StringAt(names, nameOff) == Some(s.name)
    ensures ReadSec(f, p, names) == Some(s)
  {
    hide ReadHeader; hide StringAt; hide Slice;
  }

  lemma NameOffsetFits(obj: ObjectFile, i: nat)
    requires Fits(obj) && i < |Sections(obj)|
    ensures NameAt(Sections(obj), i) < TWO32
  {
    SectionNamesShort(obj);
    hide *;
  }

  lemma OffsetFits(obj: ObjectFile, i: nat)
    requires Fits(obj) && i < |Sections(obj)|
    ensures OffsetOf(Sections(obj), Start(obj), i) < TWO64
  {
    ShoffFits(obj);
    hide *;
    SectionHasPlace(obj, i);
    DataInFile(obj, i);
  }

  lemma FittingSection(obj: ObjectFile, i: nat)
    requires Fits(obj) && i < |Sections(obj)|
    ensures Fitting(Sections(obj)[i]) && 0 !in Sections(obj)[i].name
  {
    SizeFits(obj, i);
    FieldsFit(obj, i);
    hide Sections; hide Fits;
  }

  lemma HeaderOfSection(obj: ObjectFile, i: nat)
    requires Fits(obj) && i < |Sections(obj)|
    ensures var s, p := Sections(obj)[i], Shoff(obj) + 64 * i;
      ReadHeader(ElfFile(obj), p) == Some(RawHeader(NameAt(Sections(obj), i), s.kind, s.flags, s.addr,
        OffsetOf(Sections(obj), Start(obj), i), |s.data|, s.link, s.info, s.align, s.entsize))
  {
    hide *;
    NameOffsetFits(obj, i);
    OffsetFits(obj, i);
    FittingSection(obj, i);
    HeaderInFile(obj, i);
    HeaderReads(ElfFile(obj), Shoff(obj) + 64 * i, Sections(obj)[i], NameAt(Sections(obj), i),
      OffsetOf(Sections(obj), Start(obj), i));
  }

  lemma SecReads(obj: ObjectFile, i: nat)
    requires Fits(obj) && i < |Sections(obj)|
    ensures ReadSec(ElfFile(obj), Shoff(obj) + 64 * i, NameTable(Sections(obj))) == Some(Sections(obj)[i])
  {
    hide *;
    NobitsIsEmpty(obj, i);
    FittingSection(obj, i);
    SectionHasPlace(obj, i);
    HeaderOfSection(obj, i);
    DataInFile(obj, i);
    NameReads(Sections(obj), i);
    SecReadsFrom(ElfFile(obj), Shoff(obj) + 64 * i, NameTable(Sections(obj)), Sections(obj)[i],
      NameAt(Sections(obj), i),
                 OffsetOf(Sections(obj), Start(obj), i));
  }

  lemma NobitsIsEmpty(obj: ObjectFile, i: nat)
    requires i < |Sections(obj)|
    ensures Sections(obj)[i].kind == SHT_NOBITS ==> Sections(obj)[i].data == []
  {
  }

  lemma {:induction false} AllSecsRead(obj: ObjectFile, n: nat)
    requires Fits(obj) && n <= |Sections(obj)|
    ensures ReadSecs(ElfFile(obj), Shoff(obj), 64, NameTable(Sections(obj)), n) == Some(Sections(obj)[..n])
    decreases n
  {
    hide Sections; hide ElfFile; hide Shoff; hide NameTable; hide ReadSec;
    if n > 0 {
      AllSecsRead(obj, n - 1);
      SecReads(obj, n - 1);
      assert Sections(obj)[..n] == Sections(obj)[..n - 1] + [Sections(obj)[n - 1]];
    }
  }

  lemma HeaderOffsets(obj: ObjectFile)
    requires Shoff(obj) < TWO64
    ensures var f := ElfFile(obj);
      |f| >= 64 && Word(f, 40, 8) == Shoff(obj) && Word(f, 58, 2) == 64 && Word(f, 60, 2) == |Sections(obj)|
      && Word(f, 62, 2) == |Sections(obj)| - 1
  {
    FileParts(obj);
    hide ElfFile; hide Sections; hide Word; hide Shoff; hide Ident; hide TypeFields; hide Le;
    var f, h := ElfFile(obj), FileHeader(obj);
    var n := |Sections(obj)|;
    var a := Ident() + TypeFields(obj.isExecutable, Entry(obj, |obj.globalSymbols|))
      + Le(if obj.isExecutable then 64 else 0, 8);
    var b := a + Le(Shoff(obj), 8);
    var c := Le(0, 4) + Le(64, 2) + Le(if obj.isExecutable then 56 else 0, 2)
      + Le(if obj.isExecutable then 1 else 0, 2);
    Pow256Values();
    WordAt(a, Shoff(obj), 8, h[48..]);
    assert h == b + h[48..];
    WordAt(b + c, 64, 2, h[60..]);
    assert h == b + c + Le(64, 2) + h[60..];
    WordAt(b + c + Le(64, 2), n, 2, h[62..]);
    assert h == b + c + Le(64, 2) + Le(n, 2) + h[62..];
    WordAt(b + c + Le(64, 2) + Le(n, 2), n - 1, 2, []);
    assert h == b + c + Le(64, 2) + Le(n, 2) + Le(n - 1, 2) + [];
    WordInside(f, 0, 64, 40, 8);
    WordInside(f, 0, 64, 58, 2);
    WordInside(f, 0, 64, 60, 2);
    WordInside(f, 0, 64, 62, 2);
    assert f[0..64] == h;
  }

  lemma FollowHeader(f: seq<byte>, shoff: nat, n: nat, h: RawHeader, names: seq<byte>)
    requires n > 0 && |f| >= 64 && Word(f, 40, 8) == shoff && Word(f, 58, 2) == 64 && Word(f, 60, 2) == n
    requires Word(f, 62, 2) == n - 1 && ReadHeader(f, shoff + 64 * (n - 1)) == Some(h)
      && Slice(f, h.offset, h.size) == Some(names)
    ensures ReadElf(f) == ReadSecs(f, shoff, 64, names, n)
  {
    hide Word; hide ReadHeader; hide Slice; hide ReadSecs;
  }

  /** The header of the name table, as the reader finds it. */
  lemma NamesHeader(obj: ObjectFile) returns (h: RawHeader)
    requires Fits(obj)
    ensures ReadHeader(ElfFile(obj), Shoff(obj) + 64 * (|Sections(obj)| - 1)) == Some(h)
    ensures Slice(ElfFile(obj), h.offset, h.size) == Some(NameTable(Sections(obj)))
  {
    hide *;
    var last := |Sections(obj)| - 1;
    NamesOfAll(obj);
    SectionHasPlace(obj, last);
    DataInFile(obj, last);
    HeaderOfSection(obj, last);
    h := ReadHeader(ElfFile(obj), Shoff(obj) + 64 * last).value;
  }

  /** A reader gets back every section: name, type, flags, address, links, alignment and exact bytes. */
  lemma ReadBack(obj: ObjectFile)
    requires Fits(obj)
    ensures ReadElf(ElfFile(obj)) == Some(Sections(obj))
  {
    hide *;
    ShoffFits(obj);
    HeaderOffsets(obj);
    var h := NamesHeader(obj);
    FollowHeader(ElfFile(obj), Shoff(obj), |Sections(obj)|, h, NameTable(Sections(obj)));
    AllSecsRead(obj, |Sections(obj)|);
    assert Sections(obj)[..|Sections(obj)|] == Sections(obj);
  }

  // ---- layout ----

  /** Every section with bytes lies aligned between the program headers and the section headers. */
  lemma SectionsApart(obj: ObjectFile, i: nat, j: nat)
    requires i < j < |Sections(obj)| && Occupies(Sections(obj)[i]) && Occupies(Sections(obj)[j])
    ensures var secs, start := Sections(obj), Start(obj);
      start <= OffsetOf(secs, start, i)
      && OffsetOf(secs, start, i) + |secs[i].data| <= OffsetOf(secs, start, j)
      && OffsetOf(secs, start, j) + |secs[j].data| <= Shoff(obj)
  {
    hide Sections; hide ElfFile; hide Shoff; hide Body; hide After; hide Padded;
    var secs, start := Sections(obj), Start(obj);
    BodyPlace(secs, start, i, j);
    BodyPlace(secs, start, j, |secs|);
    DataInFile(obj, j);
  }

  lemma SectionAligned(obj: ObjectFile, i: nat)
    requires i < |Sections(obj)| && Occupies(Sections(obj)[i])
    ensures Sections(obj)[i].align > 0 && OffsetOf(Sections(obj), Start(obj), i) % Sections(obj)[i].align == 0
  {
    AlignPositive(obj, i);
    hide Sections; hide After; hide AlignUp;
  }

  lemma AlignPositive(obj: ObjectFile, i: nat)
    requires i < |Sections(obj)| && Sections(obj)[i].data != []
    ensures Sections(obj)[i].align > 0
  {
  }

  /** The file ends with its section headers, which start on a multiple of 8. */
  lemma FileLength(obj: ObjectFile)
    ensures |ElfFile(obj)| == FileSize(obj) && Shoff(obj) % 8 == 0
  {
    FileParts(obj);
    hide ElfFile; hide After; hide Sections;
  }
}
