/**
  What a loader and a linker find in the file: the loadable segment, the symbols, the
  relocations, and where the file departs from the System V gABI.
 */
module ElfImage {
  import opened Ast
  import opened Words
  import opened Elf
  import opened ElfTheorems

  // ---- the loadable segment ----

  datatype Segment = Segment(offset: nat, vaddr: nat, filesz: nat, memsz: nat)

  /** The first program header, found through e_phoff; None when e_phnum is 0. */
  function ReadSegment(f: seq<byte>): Option<Segment> {
    if |f| < 64 || Word(f, 56, 2) == 0 then None
    else
      var p := Word(f, 32, 8);
      if p + 56 > |f| then None
      else Some(Segment(Word(f, p + 8, 8), Word(f, p + 16, 8), Word(f, p + 32, 8), Word(f, p + 40, 8)))
  }

  /** The byte a loader puts at address `a`: from the file, or zero up to p_memsz. */
  function LoadedByte(f: seq<byte>, seg: Segment, a: nat): Option<byte> {
    if seg.vaddr <= a < seg.vaddr + seg.filesz && seg.offset + (a - seg.vaddr) < |f|
      then Some(f[seg.offset + (a - seg.vaddr)])
    else if seg.vaddr <= a < seg.vaddr + seg.memsz then Some(0)
    else None
  }

  predicate HasContent(obj: ObjectFile) { TextData(obj) != [] || RodataData(obj) != [] || DataData(obj) != [] }

  lemma ShiftAlign(x: nat, c: nat)
    requires c % 8 == 0
    ensures AlignUp(c + x, 8) == c + AlignUp(x, 8)
  {
  }

  /** The first five sections, as a list of known length. */
  lemma LoadedSections(obj: ObjectFile)
    ensures var secs := Sections(obj);
      |secs| >= 8 && secs[0] == NullSec() && secs[1] == TextSec(obj) && secs[2] == RodataSec(obj)
        && secs[3] == DataSec(obj)
      && secs[4] == BssSec(obj) && forall i | 5 <= i < |secs| :: !IsAlloc(secs[i])
  {
    hide AlignUp; hide NameTable; hide LastNamed; hide Chars; hide SymtabBytes; hide RelaBytes; hide SymbolNames;
    hide Syms;
  }

  /** File offsets of the loaded sections: the same distance from the address for all of them. */
  lemma OffsetFollowsAddress(obj: ObjectFile)
    requires obj.isExecutable
    ensures var secs := Sections(obj);
      Start(obj) == 120 && After(secs, 120, 1) == 120
      && (forall i | 1 <= i <= 3 && secs[i].data != [] :: OffsetOf(secs, 120, i) == 120 + secs[i].addr - HVM_BASE_ADDR)
      && (forall i | i in {0, 4} || (1 <= i <= 3 && secs[i].data == []) :: OffsetOf(secs, 120, i) == 0)
  {
    LoadedSections(obj);
    hide Sections; hide LastNamed; hide Chars; hide AlignUp;
    var secs := Sections(obj);
    var t, r := |TextData(obj)|, |RodataData(obj)|;
    assert After(secs, 120, 1) == 120;
    assert AlignUp(120, 4) == 120 by { AlignedStays(120, 4); }
    assert After(secs, 120, 2) == 120 + t;
    ShiftAlign(t, 120);
    ShiftAlign(t, HVM_BASE_ADDR);
    var e := AlignUp(t, 8);
    assert After(secs, 120, 3) == if r > 0 then 120 + e + r else 120 + t;
    ShiftAlign(e + r, 120);
    ShiftAlign(e + r, HVM_BASE_ADDR);
    AlignedStays(e, 8);
  }

  lemma AlignedStays(x: nat, a: nat)
    requires a > 0 && x % a == 0
    ensures AlignUp(x, a) == x
  {
  }

  lemma {:induction false} SpanOfRest(secs: seq<Sec>, start: nat, i: nat)
    requires 5 <= i <= |secs| && forall j | 5 <= j < |secs| :: !IsAlloc(secs[j])
    ensures SpanOf(secs, start, i) == SpanOf(secs, start, 5)
    decreases i
  {
    if i > 5 { SpanOfRest(secs, start, i - 1); }
  }

  /** Where the loaded bytes end, counted from the first. */
  function Extent(obj: ObjectFile): nat {
    var t, r, d := |TextData(obj)|, |RodataData(obj)|, |DataData(obj)|;
    if d > 0 then AlignUp(AlignUp(t, 8) + r, 8) + d
    else if r > 0 then AlignUp(t, 8) + r
    else t
  }

  lemma ExtentFacts(obj: ObjectFile)
    requires obj.isExecutable
    ensures BssAddr(obj) == HVM_BASE_ADDR + AlignUp(Extent(obj), 8)
    ensures HVM_BASE_ADDR <= RodataAddr(obj) <= DataAddr(obj) <= BssAddr(obj)
    ensures HVM_BASE_ADDR + |TextData(obj)| <= RodataAddr(obj) && RodataAddr(obj) + |RodataData(obj)| <= DataAddr(obj)
    ensures DataAddr(obj) + |DataData(obj)| <= BssAddr(obj)
    ensures TextData(obj) != [] ==> |TextData(obj)| <= Extent(obj)
    ensures RodataData(obj) != [] ==> RodataAddr(obj) + |RodataData(obj)| <= HVM_BASE_ADDR + Extent(obj)
    ensures DataData(obj) != [] ==> DataAddr(obj) + |DataData(obj)| == HVM_BASE_ADDR + Extent(obj)
    ensures DataData(obj) == [] && RodataData(obj) != []
      ==> RodataAddr(obj) + |RodataData(obj)| == HVM_BASE_ADDR + Extent(obj)
    ensures DataData(obj) == [] && RodataData(obj) == [] ==> |TextData(obj)| == Extent(obj)
  {
    hide LastNamed;
    var t, r, d := |TextData(obj)|, |RodataData(obj)|, |DataData(obj)|;
    ShiftAlign(t, HVM_BASE_ADDR);
    var e := AlignUp(t, 8);
    ShiftAlign(e + r, HVM_BASE_ADDR);
    var g := AlignUp(e + r, 8);
    ShiftAlign(g + d, HVM_BASE_ADDR);
    AlignedStays(e, 8);
    AlignedStays(g, 8);
    hide AlignUp;
  }

  /** Four sections laid out after each other, each at address minus base plus 120 or nowhere. */
  lemma FourCovered(base: nat, t: nat, r: nat, ra: nat, d: nat, da: nat, ba: nat, extent: nat) returns (sp: Span)
    requires base <= ra <= da <= ba < TWO64 && base + t <= ra && ra + r <= da && da + d <= ba
    requires t == 0 ==> ra == base
    requires t == 0 && r == 0 ==> da == base
    requires t == 0 && r == 0 && d == 0 ==> ba == base
    requires base + extent == if d > 0 then da + d else if r > 0 then ra + r else base + t
    requires 120 + ba - base < TWO64 - 1
    ensures sp == Cover(Cover(Cover(Cover(Span(TWO64 - 1, 0, TWO64 - 1, 0), if t > 0 then 120 else 0, t, base),
                                    if r > 0 then 120 + ra - base else 0, r, ra),
                              if d > 0 then 120 + da - base else 0, d, da), 0, 0, ba)
    ensures sp == if t + r + d > 0 then Span(120, 120 + extent, base, ba) else Span(TWO64 - 1, 0, base, base)
  {
    sp := Cover(Span(TWO64 - 1, 0, TWO64 - 1, 0), if t > 0 then 120 else 0, t, base);
    sp := Cover(sp, if r > 0 then 120 + ra - base else 0, r, ra);
    sp := Cover(sp, if d > 0 then 120 + da - base else 0, d, da);
    sp := Cover(sp, 0, 0, ba);
  }

  lemma SpanOfFive(secs: seq<Sec>, start: nat)
    requires |secs| >= 5 && !IsAlloc(secs[0]) && forall i | 1 <= i < 5 :: IsAlloc(secs[i])
    ensures SpanOf(secs, start, 5) ==
      Cover(Cover(Cover(Cover(Span(TWO64 - 1, 0, TWO64 - 1, 0),
        OffsetOf(secs, start, 1), |secs[1].data|, secs[1].addr), OffsetOf(secs, start, 2), |secs[2].data|,
          secs[2].addr),
        OffsetOf(secs, start, 3), |secs[3].data|, secs[3].addr), OffsetOf(secs, start, 4), |secs[4].data|, secs[4].addr)
  {
    hide OffsetOf; hide Cover; hide IsAlloc;
    assert SpanOf(secs, start, 1) == Span(TWO64 - 1, 0, TWO64 - 1, 0);
    assert SpanOf(secs, start, 2)
      == Cover(SpanOf(secs, start, 1), OffsetOf(secs, start, 1), |secs[1].data|, secs[1].addr);
    assert SpanOf(secs, start, 3)
      == Cover(SpanOf(secs, start, 2), OffsetOf(secs, start, 2), |secs[2].data|, secs[2].addr);
    assert SpanOf(secs, start, 4)
      == Cover(SpanOf(secs, start, 3), OffsetOf(secs, start, 3), |secs[3].data|, secs[3].addr);
  }

  lemma SpanOfSections(obj: ObjectFile)
    requires obj.isExecutable
    ensures var secs := Sections(obj);
      SpanOf(secs, 120, |secs|) ==
      Cover(Cover(Cover(Cover(Span(TWO64 - 1, 0, TWO64 - 1, 0),
        OffsetOf(secs, 120, 1), |TextData(obj)|, HVM_BASE_ADDR), OffsetOf(secs, 120, 2), |RodataData(obj)|,
          RodataAddr(obj)),
        OffsetOf(secs, 120, 3), |DataData(obj)|, DataAddr(obj)), OffsetOf(secs, 120, 4), 0, BssAddr(obj))
  {
    LoadedSections(obj);
    var secs := Sections(obj);
    hide Sections; hide LastNamed; hide Chars; hide AlignUp; hide OffsetOf; hide BssAddr; hide RodataAddr;
    hide DataAddr;
    hide Cover; hide SpanOf; hide TextData; hide RodataData; hide DataData;
    assert !IsAlloc(secs[0]) && IsAlloc(secs[1]) && IsAlloc(secs[2]) && IsAlloc(secs[3]) && IsAlloc(secs[4]);
    hide IsAlloc;
    SpanOfRest(secs, 120, |secs|);
    SpanOfFive(secs, 120);
  }

  lemma SpanIs(obj: ObjectFile)
    requires obj.isExecutable && Fits(obj)
    ensures SpanOf(Sections(obj), 120, |Sections(obj)|) ==
      if HasContent(obj) then Span(120, 120 + Extent(obj), HVM_BASE_ADDR, BssAddr(obj))
      else Span(TWO64 - 1, 0, HVM_BASE_ADDR, HVM_BASE_ADDR)
  {
    SectionOffsets(obj);
    ExtentFacts(obj);
    ContentAddresses(obj);
    BssBelowTop(obj);
    SpanOfSections(obj);
    hide Sections; hide LastNamed; hide AlignUp; hide OffsetOf; hide BssAddr; hide RodataAddr; hide DataAddr;
    hide Shoff; hide Cover; hide SpanOf; hide TextData; hide RodataData; hide DataData; hide Fits;
    var sp := FourCovered(HVM_BASE_ADDR, |TextData(obj)|, |RodataData(obj)|, RodataAddr(obj), |DataData(obj)|,
      DataAddr(obj),
                          BssAddr(obj), Extent(obj));
  }

  lemma SectionOffsets(obj: ObjectFile)
    requires obj.isExecutable
    ensures var secs := Sections(obj);
      OffsetOf(secs, 120, 1) == (if |TextData(obj)| > 0 then 120 else 0)
      && OffsetOf(secs, 120, 2) == (if |RodataData(obj)| > 0 then 120 + RodataAddr(obj) - HVM_BASE_ADDR else 0)
      && OffsetOf(secs, 120, 3) == (if |DataData(obj)| > 0 then 120 + DataAddr(obj) - HVM_BASE_ADDR else 0)
      && OffsetOf(secs, 120, 4) == 0
  {
    OffsetFollowsAddress(obj);
    LoadedSections(obj);
    hide Sections; hide LastNamed; hide AlignUp; hide OffsetOf; hide BssAddr; hide RodataAddr; hide DataAddr;
    hide Chars;
  }

  lemma BssBelowTop(obj: ObjectFile)
    requires obj.isExecutable && Fits(obj)
    ensures BssAddr(obj) < TWO64
  {
  }

  /** The first section with bytes starts the segment. */
  lemma ContentAddresses(obj: ObjectFile)
    requires obj.isExecutable
    ensures TextData(obj) == [] ==> RodataAddr(obj) == HVM_BASE_ADDR
    ensures TextData(obj) == [] && RodataData(obj) == [] ==> DataAddr(obj) == HVM_BASE_ADDR
    ensures !HasContent(obj) ==> BssAddr(obj) == HVM_BASE_ADDR
  {
    hide LastNamed;
  }

  lemma SpanBounds(obj: ObjectFile)
    requires obj.isExecutable && Fits(obj)
    ensures var sp := SpanOf(Sections(obj), 120, |Sections(obj)|); sp.firstOff < TWO64 && sp.minAddr < TWO64
  {
    SpanIs(obj);
    hide SpanOf; hide Sections; hide Extent; hide HasContent; hide BssAddr; hide Fits;
  }

  lemma PhdrPlace(obj: ObjectFile)
    requires obj.isExecutable
    ensures var sp, f := SpanOf(Sections(obj), 120, |Sections(obj)|), ElfFile(obj);
      |f| >= 120 && f[64..120] ==
      PhdrBytes(sp.firstOff, sp.minAddr, (sp.lastEnd - sp.firstOff) % TWO64, (sp.maxAddr - sp.minAddr) % TWO64)
  {
    FileParts(obj);
    SegmentPlace(obj);
    hide ElfFile; hide Sections; hide SpanOf; hide FileHeader; hide Headers; hide Body; hide After; hide Shoff;
    hide PhdrBytes;
    hide Word;
  }

  lemma PhdrReads(f: seq<byte>, offset: nat, vaddr: nat, filesz: nat, memsz: nat)
    requires offset < TWO64 && vaddr < TWO64 && filesz < TWO64 && memsz < TWO64
    requires |f| >= 120 && Word(f, 32, 8) == 64 && Word(f, 56, 2) == 1
    requires f[64..120] == PhdrBytes(offset, vaddr, filesz, memsz)
    ensures ReadSegment(f) == Some(Segment(offset, vaddr, filesz, memsz))
  {
    PhdrWords(offset, vaddr, filesz, memsz);
    hide Word; hide PhdrBytes;
    WordInside(f, 64, 56, 8, 8);
    WordInside(f, 64, 56, 16, 8);
    WordInside(f, 64, 56, 32, 8);
    WordInside(f, 64, 56, 40, 8);
  }

  /** The program header of the file, as numbers. */
  lemma SegmentReads(obj: ObjectFile)
    requires obj.isExecutable && Fits(obj)
    ensures var sp := SpanOf(Sections(obj), 120, |Sections(obj)|);
      ReadSegment(ElfFile(obj)) ==
      Some(Segment(sp.firstOff, sp.minAddr, (sp.lastEnd - sp.firstOff) % TWO64, (sp.maxAddr - sp.minAddr) % TWO64))
  {
    hide *;
    SegmentPlace(obj);
    SpanBounds(obj);
    PhdrPlace(obj);
    var sp := SpanOf(Sections(obj), 120, |Sections(obj)|);
    PhdrReads(ElfFile(obj), sp.firstOff, sp.minAddr, (sp.lastEnd - sp.firstOff) % TWO64,
      (sp.maxAddr - sp.minAddr) % TWO64);
  }

  lemma PhdrWords(offset: nat, vaddr: nat, filesz: nat, memsz: nat)
    requires offset < TWO64 && vaddr < TWO64 && filesz < TWO64 && memsz < TWO64
    ensures var b := PhdrBytes(offset, vaddr, filesz, memsz);
      Word(b, 8, 8) == offset && Word(b, 16, 8) == vaddr && Word(b, 32, 8) == filesz && Word(b, 40, 8) == memsz
  {
    Pow256Values();
    hide Le; hide Word; hide Pow256;
    var b := PhdrBytes(offset, vaddr, filesz, memsz);
    var p1 := Le(1, 4) + Le(7, 4);
    var p2 := p1 + Le(offset, 8);
    var p3 := p2 + Le(vaddr, 8) + Le(vaddr, 8);
    var p4 := p3 + Le(filesz, 8);
    WordAt(p1, offset, 8, b[16..]);
    assert b == p2 + b[16..];
    WordAt(p2, vaddr, 8, b[24..]);
    assert b == p2 + Le(vaddr, 8) + b[24..];
    WordAt(p3, filesz, 8, b[40..]);
    assert b == p4 + b[40..];
    WordAt(p4, memsz, 8, b[48..]);
    assert b == p4 + Le(memsz, 8) + b[48..];
  }

  lemma SegmentPlace(obj: ObjectFile)
    ensures var f := ElfFile(obj);
      |f| >= 120 && Word(f, 32, 8) == (if obj.isExecutable then 64 else 0)
        && Word(f, 56, 2) == (if obj.isExecutable then 1 else 0)
  {
    FileParts(obj);
    AtLeastOneHeader(obj);
    hide ElfFile; hide Sections; hide Word; hide Shoff; hide Ident; hide TypeFields; hide Le; hide After; hide Headers;
    hide Body;
    hide ProgramHeader;
    var f, h := ElfFile(obj), FileHeader(obj);
    var a := Ident() + TypeFields(obj.isExecutable, Entry(obj, |obj.globalSymbols|));
    var x, n := if obj.isExecutable then 64 else 0, if obj.isExecutable then 1 else 0;
    var b := a + Le(x, 8) + Le(Shoff(obj), 8) + Le(0, 4) + Le(64, 2) + Le(if obj.isExecutable then 56 else 0, 2);
    Pow256Values();
    WordAt(a, x, 8, h[40..]);
    assert h == a + Le(x, 8) + h[40..];
    WordAt(b, n, 2, h[58..]);
    assert h == b + Le(n, 2) + h[58..];
    WordInside(f, 0, 64, 32, 8);
    WordInside(f, 0, 64, 56, 2);
    assert f[0..64] == h;
  }

  lemma AtLeastOneHeader(obj: ObjectFile)
    ensures |Sections(obj)| >= 1
  {
  }

  lemma ExtentBound(obj: ObjectFile)
    requires obj.isExecutable && Fits(obj)
    ensures BssAddr(obj) == HVM_BASE_ADDR + AlignUp(Extent(obj), 8) < TWO64 && Extent(obj) <= AlignUp(Extent(obj), 8)
  {
    ExtentFacts(obj);
    BssBelowTop(obj);
    hide Extent; hide AlignUp; hide BssAddr; hide Fits;
  }

  /**
    The segment of an executable with bytes to load: it starts at the first of them, at the base
    address, and its memory size is its file size rounded up to 8.
   */
  lemma SegmentFacts(obj: ObjectFile)
    requires obj.isExecutable && Fits(obj) && HasContent(obj)
    ensures ReadSegment(ElfFile(obj)) == Some(Segment(120, HVM_BASE_ADDR, Extent(obj), AlignUp(Extent(obj), 8)))
  {
    hide *;
    ExtentBound(obj);
    SpanSizes(Extent(obj), AlignUp(Extent(obj), 8), BssAddr(obj));
    SegmentReads(obj);
    SpanIs(obj);
  }

  lemma SpanSizes(extent: nat, size: nat, end: nat)
    requires extent <= size && end == HVM_BASE_ADDR + size < TWO64
    ensures ((120 + extent) - 120) % TWO64 == extent && (end - HVM_BASE_ADDR) % TWO64 == size
  {
    SmallMod(extent);
    SmallMod(size);
  }

  lemma SmallMod(x: nat)
    requires x < TWO64
    ensures x % TWO64 == x
  {
  }

  lemma WrapsToOne()
    ensures (0 - (TWO64 - 1)) % TWO64 == 1
  {
    assert 0 - (TWO64 - 1) == TWO64 * (-1) + 1;
  }

  /** Without bytes to load, the offset is the top of the address space and the file size wraps to 1. */
  lemma EmptySegmentFacts(obj: ObjectFile)
    requires obj.isExecutable && Fits(obj) && !HasContent(obj)
    ensures ReadSegment(ElfFile(obj)) == Some(Segment(TWO64 - 1, HVM_BASE_ADDR, 1, 0))
  {
    WrapsToOne();
    SmallMod(0);
    hide *;
    SegmentReads(obj);
    SpanIs(obj);
  }

  lemma AllocatedOffset(obj: ObjectFile, i: nat)
    requires obj.isExecutable && 1 <= i <= 3 && Sections(obj)[i].data != []
    ensures OffsetOf(Sections(obj), 120, i) == 120 + Sections(obj)[i].addr - HVM_BASE_ADDR
  {
    hide *;
    OffsetFollowsAddress(obj);
  }

  /** An allocated byte of the file lies as far into the segment as its address is above the base. */
  lemma AllocatedPlace(obj: ObjectFile, i: nat)
    requires obj.isExecutable && i < |Sections(obj)| && IsAlloc(Sections(obj)[i]) && Sections(obj)[i].data != []
    ensures HasContent(obj)
    ensures var f, s := ElfFile(obj), Sections(obj)[i];
      s.addr >= HVM_BASE_ADDR && s.addr + |s.data| <= HVM_BASE_ADDR + Extent(obj)
      && Slice(f, 120 + s.addr - HVM_BASE_ADDR, |s.data|) == Some(s.data)
  {
    hide *;
    AllocIsContent(obj, i);
    AllocatedExtent(obj, i);
    AllocatedOffset(obj, i);
    SectionHasPlace(obj, i);
    DataInFile(obj, i);
  }

  lemma AllocatedExtent(obj: ObjectFile, i: nat)
    requires obj.isExecutable && 1 <= i <= 3 && Sections(obj)[i].data != []
    ensures var s := Sections(obj)[i]; s.addr >= HVM_BASE_ADDR && s.addr + |s.data| <= HVM_BASE_ADDR + Extent(obj)
  {
    LoadedSections(obj);
    ExtentFacts(obj);
    hide Sections; hide LastNamed; hide Chars; hide AlignUp; hide Extent; hide BssAddr; hide DataAddr; hide RodataAddr;
  }

  lemma LoadedFrom(f: seq<byte>, seg: Segment, data: seq<byte>, addr: nat, k: nat)
    requires seg.vaddr <= addr && addr + |data| <= seg.vaddr + seg.filesz && k < |data|
    requires Slice(f, seg.offset + addr - seg.vaddr, |data|) == Some(data)
    ensures LoadedByte(f, seg, addr + k) == Some(data[k])
  {
    var o := seg.offset + addr - seg.vaddr;
    assert f[o..o + |data|][k] == f[o + k];
  }

  /** Loading the segment puts every byte of every allocated section at its address. */
  lemma ImageFaithful(obj: ObjectFile, i: nat, k: nat)
    requires obj.isExecutable && Fits(obj)
    requires i < |Sections(obj)| && IsAlloc(Sections(obj)[i]) && k < |Sections(obj)[i].data|
    ensures ReadSegment(ElfFile(obj)).Some?
    ensures LoadedByte(ElfFile(obj), ReadSegment(ElfFile(obj)).value, Sections(obj)[i].addr + k)
      == Some(Sections(obj)[i].data[k])
  {
    hide *;
    AllocatedPlace(obj, i);
    SegmentFacts(obj);
    LoadedFrom(ElfFile(obj), ReadSegment(ElfFile(obj)).value, Sections(obj)[i].data, Sections(obj)[i].addr, k);
  }

  lemma AllocIsContent(obj: ObjectFile, i: nat)
    requires i < |Sections(obj)| && IsAlloc(Sections(obj)[i]) && Sections(obj)[i].data != []
    ensures 1 <= i <= 3 && HasContent(obj) && Start(obj) == if obj.isExecutable then 120 else 64
  {
    LoadedSections(obj);
    hide Sections; hide LastNamed; hide Chars; hide AlignUp;
  }

  /**
    The segment lies in the file exactly when some loaded section has bytes.
   */
  lemma SegmentInFileExactlyWhen(obj: ObjectFile)
    requires obj.isExecutable && Fits(obj)
    ensures ReadSegment(ElfFile(obj)).Some?
    ensures var seg := ReadSegment(ElfFile(obj)).value; seg.offset + seg.filesz <= |ElfFile(obj)| <==> HasContent(obj)
  {
    hide *;
    if HasContent(obj) {
      SegmentFacts(obj);
      ExtentInFile(obj);
    } else {
      EmptySegmentFacts(obj);
      EmptyFileShort(obj);
    }
  }

  lemma ExtentInFile(obj: ObjectFile)
    requires obj.isExecutable && HasContent(obj)
    ensures 120 + Extent(obj) <= |ElfFile(obj)|
  {
    LoadedSections(obj);
    ExtentFacts(obj);
    hide ElfFile; hide Sections; hide AlignUp; hide Extent; hide LastNamed; hide Chars; hide BssAddr; hide RodataAddr;
    hide DataAddr;
    var i := if DataData(obj) != [] then 3 else if RodataData(obj) != [] then 2 else 1;
    AllocatedPlace(obj, i);
  }

  /** Without loadable bytes the file holds tables only, and those do not fill the address space. */
  lemma EmptyFileShort(obj: ObjectFile)
    requires Fits(obj)
    ensures |ElfFile(obj)| < TWO64
  {
    FileParts(obj);
    hide ElfFile;
  }

  lemma SegmentStart(obj: ObjectFile)
    requires obj.isExecutable && Fits(obj)
    ensures ReadSegment(ElfFile(obj)).Some?
    ensures var seg := ReadSegment(ElfFile(obj)).value;
      seg.offset == (if HasContent(obj) then 120 else TWO64 - 1) && seg.vaddr == HVM_BASE_ADDR
  {
    hide *;
    if HasContent(obj) { SegmentFacts(obj); } else { EmptySegmentFacts(obj); }
  }

  lemma Incongruent(offset: nat)
    requires offset == 120 || offset == TWO64 - 1
    ensures offset % 0x1000 != HVM_BASE_ADDR % 0x1000
  {
  }

  /** Offset and address of the segment differ modulo its alignment of 0x1000, against chapter 5 of the gABI. */
  lemma SegmentNotCongruent(obj: ObjectFile)
    requires obj.isExecutable && Fits(obj)
    ensures ReadSegment(ElfFile(obj)).Some?
    ensures var seg := ReadSegment(ElfFile(obj)).value; seg.offset % 0x1000 != seg.vaddr % 0x1000
  {
    hide *;
    SegmentStart(obj);
    Incongruent(if HasContent(obj) then 120 else TWO64 - 1);
  }
}
