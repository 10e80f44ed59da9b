/**
  The region memory: a list of regions searched in order, little-endian accesses of any
  width within one region, and read-only protection.

  The functions say what an access does to the region list; the class runs them over its
  fields.  A region's size is the length of its data.  Calls to MMIO handlers are foreign:
  the model says which accesses reach one and for which region.
 */
module Memory {
  import opened Ast
  import opened Words

  datatype RegionType = Ram | Rom | Mmio | Reserved

  datatype Region = Region(base: u64, data: seq<byte>, kind: RegionType, readOnly: bool)

  /** `out_of_range` for a missing or too small region, `runtime_error` for a write to read-only memory. */
  datatype MemFault = OutOfRange | ReadOnlyWrite

  datatype Access<+T> = Done(value: T) | Fault(fault: MemFault) | Handler(base: u64)

  /** The bound of `vector::max_size`: no region or buffer is longer. */
  const MAX_SIZE: nat := 0x8000_0000_0000_0000

  // ---- lookup ----

  /** The comparison `find_region` makes, in 64-bit arithmetic. */
  predicate Contains(r: Region, addr: u64) {
    r.base <= addr && addr < (r.base + |r.data|) % TWO64
  }

  /** The first region containing the address, from index `i` on. */
  function FindFrom(rs: seq<Region>, addr: u64, i: nat): (k: Option<nat>)
    requires i <= |rs|
    ensures k.Some? ==> i <= k.value < |rs| && Contains(rs[k.value], addr)
    ensures k.Some? ==> forall j | i <= j < k.value :: !Contains(rs[j], addr)
    ensures k.None? ==> forall j | i <= j < |rs| :: !Contains(rs[j], addr)
    decreases |rs| - i
  {
    if i == |rs| then None
    else if Contains(rs[i], addr) then Some(i)
    else FindFrom(rs, addr, i + 1)
  }

  function Find(rs: seq<Region>, addr: u64): (k: Option<nat>)
    ensures k.Some? ==> k.value < |rs| && Contains(rs[k.value], addr)
  {
    FindFrom(rs, addr, 0)
  }

  /** The region an access of `n` bytes falls in, or the fault of `bounds_check`. */
  function Locate(rs: seq<Region>, addr: u64, n: nat): (k: Access<nat>)
    ensures k.Done? ==> k.value < |rs| && Contains(rs[k.value], addr)
    ensures !k.Handler?
  {
    match Find(rs, addr)
    case None => Fault(OutOfRange)
    case Some(k) =>
      if (addr - rs[k].base + n) % TWO64 > |rs[k].data| then Fault(OutOfRange) else Done(k)
  }

  lemma LocatedInside(rs: seq<Region>, addr: u64, n: nat)
    requires n < MAX_SIZE && (forall r | r in rs :: |r.data| < MAX_SIZE) && Locate(rs, addr, n).Done?
    ensures var r := rs[Locate(rs, addr, n).value]; addr - r.base + n <= |r.data|
  {
    var r := rs[Locate(rs, addr, n).value];
    assert r in rs;
  }

  // ---- accesses ----

  predicate Sized(rs: seq<Region>) { forall r | r in rs :: |r.data| < MAX_SIZE }

  /** The little-endian value of `n` bytes in one region. */
  function Load(rs: seq<Region>, addr: u64, n: nat): (v: Access<seq<byte>>)
    requires Sized(rs) && n < MAX_SIZE
    ensures v.Done? ==> |v.value| == n
    ensures !v.Handler?
  {
    match Locate(rs, addr, n)
    case Fault(f) => Fault(f)
    case Done(k) =>
      LocatedInside(rs, addr, n);
      var off := addr - rs[k].base;
      Done(rs[k].data[off..off + n])
  }

  /** `bytes` written over one region's data. */
  function Store(rs: seq<Region>, addr: u64, bytes: seq<byte>): (r: Access<seq<Region>>)
    requires Sized(rs) && |bytes| < MAX_SIZE
    ensures r.Done? ==> Sized(r.value)
    ensures !r.Handler?
  {
    match Locate(rs, addr, |bytes|)
    case Fault(f) => Fault(f)
    case Done(k) =>
      if rs[k].readOnly then Fault(ReadOnlyWrite)
      else
        LocatedInside(rs, addr, |bytes|);
        var off := addr - rs[k].base;
        var data := Overwrite(rs[k].data, off, bytes);
        assert forall r | r in rs[k := rs[k].(data := data)] :: r == rs[k].(data := data) || r in rs;
        Done(rs[k := rs[k].(data := data)])
  }

  function Overwrite(data: seq<byte>, off: nat, bytes: seq<byte>): (r: seq<byte>)
    requires off + |bytes| <= |data|
    ensures |r| == |data|
    ensures forall j | 0 <= j < |data| :: r[j] == if off <= j < off + |bytes| then bytes[j - off] else data[j]
  {
    data[..off] + bytes + data[off + |bytes|..]
  }

  /** A single byte is read through the handler of an MMIO region that has one. */
  function LoadByte(rs: seq<Region>, handlers: set<u64>, addr: u64): Access<byte>
    requires Sized(rs)
  {
    match Find(rs, addr)
    case None => Fault(OutOfRange)
    case Some(k) =>
      if rs[k].kind == Mmio && rs[k].base in handlers then Handler(rs[k].base)
      else
        assert rs[k] in rs;
        Done(rs[k].data[addr - rs[k].base])
  }

  function StoreByte(rs: seq<Region>, handlers: set<u64>, addr: u64, v: byte): (r: Access<seq<Region>>)
    requires Sized(rs)
    ensures r.Done? ==> Sized(r.value)
  {
    match Find(rs, addr)
    case None => Fault(OutOfRange)
    case Some(k) =>
      if rs[k].readOnly then Fault(ReadOnlyWrite)
      else if rs[k].kind == Mmio && rs[k].base in handlers then Handler(rs[k].base)
      else
        assert rs[k] in rs;
        var data := Overwrite(rs[k].data, addr - rs[k].base, [v]);
        assert forall r | r in rs[k := rs[k].(data := data)] :: r == rs[k].(data := data) || r in rs;
        Done(rs[k := rs[k].(data := data)])
  }

  /** The first region with that base and size, from index `i` on, changes its protection. */
  function ProtectFrom(rs: seq<Region>, base: u64, size: nat, readOnly: bool, i: nat): (r: seq<Region>)
    requires i <= |rs|
    ensures |r| == |rs| && forall j | 0 <= j < |rs| :: r[j].data == rs[j].data && r[j].base == rs[j].base
    decreases |rs| - i
  {
    if i == |rs| then rs
    else if rs[i].base == base && |rs[i].data| == size then rs[i := rs[i].(readOnly := readOnly)]
    else ProtectFrom(rs, base, size, readOnly, i + 1)
  }

  function Protect(rs: seq<Region>, base: u64, size: nat, readOnly: bool): seq<Region> {
    ProtectFrom(rs, base, size, readOnly, 0)
  }

  function TotalSize(rs: seq<Region>): nat {
    if rs == [] then 0 else (TotalSize(rs[..|rs| - 1]) + |rs[|rs| - 1].data|) % TWO64
  }

  // ---- the memory system ----

  class MemorySystem {
    var regions: seq<Region>
    var handlers: set<u64>

    predicate Valid()
      reads this
    {
      Sized(regions)
    }

    constructor ()
      ensures Valid() && regions == [] && handlers == {}
    {
      regions := [];
      handlers := {};
    }

    method AddRegion(base: u64, size: nat, kind: RegionType, readOnly: bool)
      requires Valid() && size < MAX_SIZE
      modifies this`regions
      ensures Valid() && regions == old(regions) + [Region(base, Zeros(size), kind, readOnly)]
    {
      regions := regions + [Region(base, Zeros(size), kind, readOnly)];
    }

    method AddRom(base: u64, data: seq<byte>)
      requires Valid() && |data| < MAX_SIZE
      modifies this`regions
      ensures Valid() && regions == old(regions) + [Region(base, data, Rom, true)]
    {
      regions := regions + [Region(base, data, Rom, true)];
    }

    method AddRam(base: u64, size: nat)
      requires Valid() && size < MAX_SIZE
      modifies this`regions
      ensures Valid() && regions == old(regions) + [Region(base, Zeros(size), Ram, false)]
    {
      regions := regions + [Region(base, Zeros(size), Ram, false)];
    }

    method AddMmio(base: u64, size: nat)
      requires Valid() && size < MAX_SIZE
      modifies this
      ensures Valid() && regions == old(regions) + [Region(base, Zeros(size), Mmio, false)]
      ensures handlers == old(handlers) + {base}
    {
      handlers := handlers + {base};
      regions := regions + [Region(base, Zeros(size), Mmio, false)];
    }

    method FindRegion(addr: u64) returns (k: Option<nat>)
      ensures k == Find(regions, addr)
    {
      for i := 0 to |regions|
        invariant Find(regions, addr) == FindFrom(regions, addr, i)
      {
        if addr >= regions[i].base && addr < (regions[i].base + |regions[i].data|) % TWO64 {
          return Some(i);
        }
      }
      return None;
    }

    method BoundsCheck(addr: u64, size: nat) returns (k: Access<nat>)
      ensures k == Locate(regions, addr, size)
    {
      var found := FindRegion(addr);
      if found.None? {
        return Fault(OutOfRange);
      }
      var offset := addr - regions[found.value].base;
      if (offset + size) % TWO64 > |regions[found.value].data| {
        return Fault(OutOfRange);
      }
      return Done(found.value);
    }

    method ReadByte(addr: u64) returns (v: Access<byte>)
      requires Valid()
      ensures v == LoadByte(regions, handlers, addr)
    {
      var k := FindRegion(addr);
      if k.None? { return Fault(OutOfRange); }
      var region := regions[k.value];
      var offset := addr - region.base;
      if region.kind == Mmio {
        if region.base in handlers { return Handler(region.base); }
      }
      assert region in regions;
      return Done(region.data[offset]);
    }

    /** A length of 2^63 or more must not pass the wrapping bound check. */
    method ReadBytes(addr: u64, len: u64) returns (v: Access<seq<byte>>)
      requires Valid() && (len < MAX_SIZE || Locate(regions, addr, len).Fault?)
      ensures v == if len < MAX_SIZE then Load(regions, addr, len) else Fault(OutOfRange)
    {
      var k := BoundsCheck(addr, len);
      if k.Fault? { return Fault(k.fault); }
      LocatedInside(regions, addr, len);
      var region := regions[k.value];
      var offset := addr - region.base;
      return Done(region.data[offset..offset + len]);
    }

    method ReadHalf(addr: u64) returns (v: Access<nat>)
      requires Valid()
      ensures v == WordOf(Load(regions, addr, 2))
    {
      var k := BoundsCheck(addr, 2);
      if k.Fault? { return Fault(k.fault); }
      LocatedInside(regions, addr, 2);
      var d, offset := regions[k.value].data, addr - regions[k.value].base;
      FromLeTwo(d[offset..offset + 2]);
      return Done((d[offset] as nat) + 0x100 * (d[offset + 1] as nat));
    }

    method ReadWord(addr: u64) returns (v: Access<nat>)
      requires Valid()
      ensures v == WordOf(Load(regions, addr, 4))
    {
      var k := BoundsCheck(addr, 4);
      if k.Fault? { return Fault(k.fault); }
      LocatedInside(regions, addr, 4);
      var d, offset := regions[k.value].data, addr - regions[k.value].base;
      FromLeFour(d[offset..offset + 4]);
      return Done(Quad(d[offset], d[offset + 1], d[offset + 2], d[offset + 3]));
    }

    method ReadDword(addr: u64) returns (v: Access<nat>)
      requires Valid()
      ensures v == WordOf(Load(regions, addr, 8))
    {
      var k := BoundsCheck(addr, 8);
      if k.Fault? { return Fault(k.fault); }
      LocatedInside(regions, addr, 8);
      var d, offset := regions[k.value].data, addr - regions[k.value].base;
      FromLeEight(d[offset..offset + 8]);
      return Done(Quad(d[offset], d[offset + 1], d[offset + 2], d[offset + 3])
                  + TWO32 * Quad(d[offset + 4], d[offset + 5], d[offset + 6], d[offset + 7]));
    }

    /** A write either stores its bytes or leaves the memory as it was. */
    predicate Wrote(before: seq<Region>, r: Access<seq<Region>>, f: Option<MemFault>)
      reads this
    {
      match r
      case Done(rs) => regions == rs && f == None
      case Fault(e) => regions == before && f == Some(e)
      case Handler(_) => regions == before && f == None
    }

    method WriteByte(addr: u64, val: byte) returns (f: Option<MemFault>, handled: Option<u64>)
      requires Valid()
      modifies this`regions
      ensures Valid() && Wrote(old(regions), StoreByte(old(regions), handlers, addr, val), f)
      ensures handled == if StoreByte(old(regions), handlers, addr, val).Handler?
                         then Some(StoreByte(old(regions), handlers, addr, val).base) else None
    {
      f, handled := None, None;
      var k := FindRegion(addr);
      if k.None? { return Some(OutOfRange), None; }
      var region := regions[k.value];
      if region.readOnly { return Some(ReadOnlyWrite), None; }
      var offset := addr - region.base;
      if region.kind == Mmio {
        if region.base in handlers { return None, Some(region.base); }
      }
      assert region in regions;
      regions := regions[k.value := region.(data := region.data[offset := val])];
      assert region.data[offset := val] == Overwrite(region.data, offset, [val]);
    }

    method WriteBytes(addr: u64, buf: seq<byte>) returns (f: Option<MemFault>)
      requires Valid() && |buf| < MAX_SIZE
      modifies this`regions
      ensures Valid() && Wrote(old(regions), Store(old(regions), addr, buf), f)
    {
      var k := BoundsCheck(addr, |buf|);
      if k.Fault? { return Some(k.fault); }
      var region := regions[k.value];
      if region.readOnly { return Some(ReadOnlyWrite); }
      LocatedInside(regions, addr, |buf|);
      var offset := addr - region.base;
      regions := regions[k.value := region.(data := region.data[..offset] + buf + region.data[offset + |buf|..])];
      return None;
    }

    method WriteHalf(addr: u64, val: nat) returns (f: Option<MemFault>)
      requires Valid()
      modifies this`regions
      ensures Valid() && Wrote(old(regions), Store(old(regions), addr, Le(val, 2)), f)
    {
      f := WriteBytes(addr, Le(val, 2));
    }

    method WriteWord(addr: u64, val: nat) returns (f: Option<MemFault>)
      requires Valid()
      modifies this`regions
      ensures Valid() && Wrote(old(regions), Store(old(regions), addr, Le(val, 4)), f)
    {
      f := WriteBytes(addr, Le(val, 4));
    }

    method WriteDword(addr: u64, val: nat) returns (f: Option<MemFault>)
      requires Valid()
      modifies this`regions
      ensures Valid() && Wrote(old(regions), Store(old(regions), addr, Le(val, 8)), f)
    {
      f := WriteBytes(addr, Le(val, 8));
    }

    method SetReadOnly(base: u64, size: nat, readOnly: bool)
      requires Valid()
      modifies this`regions
      ensures Valid() && regions == Protect(old(regions), base, size, readOnly)
    {
      for i := 0 to |regions|
        invariant regions == old(regions)
        invariant Protect(regions, base, size, readOnly) == ProtectFrom(regions, base, size, readOnly, i)
      {
        if regions[i].base == base && |regions[i].data| == size {
          regions := regions[i := regions[i].(readOnly := readOnly)];
          return;
        }
      }
    }

    method Clear()
      modifies this
      ensures Valid() && regions == [] && handlers == {}
    {
      regions := [];
      handlers := {};
    }

    method GetTotalSize() returns (total: nat)
      ensures total == TotalSize(regions)
    {
      total := 0;
      for i := 0 to |regions|
        invariant total == TotalSize(regions[..i])
      {
        total := (total + |regions[i].data|) % TWO64;
        assert regions[..i + 1][..i] == regions[..i];
      }
      assert regions[..|regions|] == regions;
    }
  }

  function WordOf(a: Access<seq<byte>>): Access<nat>
    requires !a.Handler?
  {
    if a.Done? then Done(FromLe(a.value)) else Fault(a.fault)
  }

  /** Four bytes combined by shifts. */
  function Quad(a: byte, b: byte, c: byte, d: byte): nat {
    (a as nat) + 0x100 * (b as nat) + 0x1_0000 * (c as nat) + 0x100_0000 * (d as nat)
  }

  lemma FromLeTwo(b: seq<byte>)
    requires |b| == 2
    ensures FromLe(b) == (b[0] as nat) + 0x100 * (b[1] as nat)
  {
    assert b[1..][1..] == [];
    assert FromLe(b[1..]) == b[1] as nat + 256 * FromLe(b[1..][1..]);
  }

  lemma FromLeFour(b: seq<byte>)
    requires |b| == 4
    ensures FromLe(b) == Quad(b[0], b[1], b[2], b[3])
  {
    FromLeTwo(b[2..]);
    assert b[1..][1..] == b[2..];
    assert FromLe(b[1..]) == b[1] as nat + 256 * FromLe(b[2..]);
  }

  lemma FromLeEight(b: seq<byte>)
    requires |b| == 8
    ensures FromLe(b) == Quad(b[0], b[1], b[2], b[3]) + TWO32 * Quad(b[4], b[5], b[6], b[7])
  {
    FromLeFour(b[4..]);
    assert b[1..][1..] == b[2..] && b[2..][1..] == b[3..] && b[3..][1..] == b[4..];
    assert FromLe(b[3..]) == b[3] as nat + 256 * FromLe(b[4..]);
    assert FromLe(b[2..]) == b[2] as nat + 256 * FromLe(b[3..]);
    assert FromLe(b[1..]) == b[1] as nat + 256 * FromLe(b[2..]);
  }
}
