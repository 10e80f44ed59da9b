/**
  The flat memory: one byte array, written in place.  It behaves as a region memory with one
  RAM region of the same bytes at address 0.
 */
module FlatMemory {
  import opened Ast
  import opened Words
  import opened Memory

  /** The test `check_bounds` makes, in 64-bit arithmetic. */
  predicate InBounds(size: nat, addr: u64, n: nat) { addr < size && (addr + n) % TWO64 <= size }

  function FlatLoad(data: seq<byte>, addr: u64, n: nat): Access<seq<byte>>
    requires |data| < MAX_SIZE && n < MAX_SIZE
  {
    if InBounds(|data|, addr, n) then Done(data[addr..addr + n]) else Fault(OutOfRange)
  }

  function FlatStore(data: seq<byte>, addr: u64, bytes: seq<byte>): Access<seq<byte>>
    requires |data| < MAX_SIZE && |bytes| < MAX_SIZE
  {
    if InBounds(|data|, addr, |bytes|) then Done(Overwrite(data, addr, bytes)) else Fault(OutOfRange)
  }

  /** The same bytes as one region. */
  function AsRegion(data: seq<byte>): Region { Region(0, data, Ram, false) }

  lemma OneRegionFound(data: seq<byte>, addr: u64)
    requires |data| < MAX_SIZE
    ensures Find([AsRegion(data)], addr) == if addr < |data| then Some(0) else None
  {
    var rs := [AsRegion(data)];
    assert FindFrom(rs, addr, 1) == None;
  }

  /** Loads agree. */
  lemma LoadsAgree(data: seq<byte>, addr: u64, n: nat)
    requires |data| < MAX_SIZE && n < MAX_SIZE
    ensures Load([AsRegion(data)], addr, n) == FlatLoad(data, addr, n)
  {
    hide Find;
    OneRegionFound(data, addr);
  }

  /** Stores agree, in what they write and in when they fault. */
  lemma StoresAgree(data: seq<byte>, addr: u64, bytes: seq<byte>)
    requires |data| < MAX_SIZE && |bytes| < MAX_SIZE
    ensures var flat := FlatStore(data, addr, bytes);
      Store([AsRegion(data)], addr, bytes) == if flat.Done? then Done([AsRegion(flat.value)]) else Fault(OutOfRange)
  {
    hide Find;
    OneRegionFound(data, addr);
    var rs := [AsRegion(data)];
    if InBounds(|data|, addr, |bytes|) {
      assert rs[0 := AsRegion(Overwrite(data, addr, bytes))] == [AsRegion(Overwrite(data, addr, bytes))];
    }
  }

  /** The bytes of a doubleword, as shifts of its halves. */
  lemma LeOfDword(n: nat)
    requires n < TWO64
    ensures Le(n, 8) == Le(n % TWO32, 4) + Le(n / TWO32, 4)
  {
    Pow256Values();
    hide Le; hide Pow256;
    QuotientTimes(n, TWO32);
    LeConcat(n % TWO32, n / TWO32, 4, 4);
  }

  lemma TwoOverwrites(data: seq<byte>, addr: nat, a: seq<byte>, b: seq<byte>)
    requires addr + |a| + |b| <= |data|
    ensures Overwrite(Overwrite(data, addr, a), addr + |a|, b) == Overwrite(data, addr, a + b)
  {
  }

  class FlatMemory {
    const data: array<byte>

    ghost predicate Valid()
    {
      data.Length < MAX_SIZE
    }

    constructor (size: nat)
      requires size < MAX_SIZE
      ensures Valid() && fresh(data) && data[..] == Zeros(size)
    {
      data := new byte[size](_ => 0);
    }

    method CheckBounds(addr: u64, size: nat) returns (ok: bool)
      ensures ok == InBounds(data.Length, addr, size)
    {
      ok := !(addr >= data.Length || (addr + size) % TWO64 > data.Length);
    }

    method ReadByte(addr: u64) returns (v: Access<nat>)
      requires Valid()
      ensures v == WordOf(FlatLoad(data[..], addr, 1))
    {
      var ok := CheckBounds(addr, 1);
      if !ok { return Fault(OutOfRange); }
      assert data[..][addr..addr + 1] == [data[addr]];
      assert FromLe([data[addr]]) == data[addr] as nat + 256 * FromLe([data[addr]][1..]);
      return Done(data[addr]);
    }

    method ReadHalf(addr: u64) returns (v: Access<nat>)
      requires Valid()
      ensures v == WordOf(FlatLoad(data[..], addr, 2))
    {
      var ok := CheckBounds(addr, 2);
      if !ok { return Fault(OutOfRange); }
      FromLeTwo(data[..][addr..addr + 2]);
      return Done((data[addr] as nat) + 0x100 * (data[addr + 1] as nat));
    }

    method ReadWord(addr: u64) returns (v: Access<nat>)
      requires Valid()
      ensures v == WordOf(FlatLoad(data[..], addr, 4))
    {
      var ok := CheckBounds(addr, 4);
      if !ok { return Fault(OutOfRange); }
      FromLeFour(data[..][addr..addr + 4]);
      return Done(Quad(data[addr], data[addr + 1], data[addr + 2], data[addr + 3]));
    }

    method ReadDword(addr: u64) returns (v: Access<nat>)
      requires Valid()
      ensures v == WordOf(FlatLoad(data[..], addr, 8))
    {
      var ok := CheckBounds(addr, 8);
      if !ok { return Fault(OutOfRange); }
      FromLeEight(data[..][addr..addr + 8]);
      return Done(Quad(data[addr], data[addr + 1], data[addr + 2], data[addr + 3])
                  + TWO32 * Quad(data[addr + 4], data[addr + 5], data[addr + 6], data[addr + 7]));
    }

    /** A write stores its bytes in place, or faults and changes nothing. */
    predicate Wrote(before: seq<byte>, addr: u64, bytes: seq<byte>, f: Option<MemFault>)
      requires |before| < MAX_SIZE && |bytes| < MAX_SIZE
      reads data
    {
      var r := FlatStore(before, addr, bytes);
      if r.Done? then data[..] == r.value && f == None else data[..] == before && f == Some(OutOfRange)
    }

    method WriteByte(addr: u64, val: byte) returns (f: Option<MemFault>)
      requires Valid()
      modifies data
      ensures Wrote(old(data[..]), addr, [val], f)
    {
      var ok := CheckBounds(addr, 1);
      if !ok { return Some(OutOfRange); }
      data[addr] := val;
      assert data[..] == Overwrite(old(data[..]), addr, [val]);
      return None;
    }

    method WriteHalf(addr: u64, val: nat) returns (f: Option<MemFault>)
      requires Valid()
      modifies data
      ensures Wrote(old(data[..]), addr, Le(val, 2), f)
    {
      var ok := CheckBounds(addr, 2);
      if !ok { return Some(OutOfRange); }
      data[addr] := val % 256;
      data[addr + 1] := val / 0x100 % 256;
      assert Le(val, 2) == [val % 256] + Le(val / 0x100, 1);
      assert Le(val / 0x100, 1) == [val / 0x100 % 256] + Le(val / 0x100 / 256, 0);
      assert data[..] == Overwrite(old(data[..]), addr, Le(val, 2));
      return None;
    }

    /** The four bytes of a word, low byte first. */
    method PutWord(addr: nat, val: nat)
      requires addr + 4 <= data.Length
      modifies data
      ensures data[..] == Overwrite(old(data[..]), addr, Le(val, 4))
    {
      hide Le;
      data[addr] := val % 256;
      data[addr + 1] := val / 0x100 % 256;
      data[addr + 2] := val / 0x1_0000 % 256;
      data[addr + 3] := val / 0x100_0000 % 256;
      LeOfWord(val);
      assert data[..] == Overwrite(old(data[..]), addr, Le(val, 4));
    }

    method WriteWord(addr: u64, val: nat) returns (f: Option<MemFault>)
      requires Valid()
      modifies data
      ensures Wrote(old(data[..]), addr, Le(val, 4), f)
    {
      hide Le;
      var ok := CheckBounds(addr, 4);
      if !ok { return Some(OutOfRange); }
      PutWord(addr, val);
      return None;
    }

    method WriteDword(addr: u64, val: u64) returns (f: Option<MemFault>)
      requires Valid()
      modifies data
      ensures Wrote(old(data[..]), addr, Le(val, 8), f)
    {
      hide Le;
      var ok := CheckBounds(addr, 8);
      if !ok { return Some(OutOfRange); }
      PutWord(addr, val % TWO32);
      PutWord(addr + 4, val / TWO32);
      LeOfDword(val);
      TwoOverwrites(old(data[..]), addr, Le(val % TWO32, 4), Le(val / TWO32, 4));
      return None;
    }

    method LoadBytes(addr: u64, bytes: seq<byte>) returns (f: Option<MemFault>)
      requires Valid() && |bytes| < MAX_SIZE
      modifies data
      ensures Wrote(old(data[..]), addr, bytes, f)
    {
      var ok := CheckBounds(addr, |bytes|);
      if !ok { return Some(OutOfRange); }
      for i := 0 to |bytes|
        invariant forall j | 0 <= j < data.Length ::
          data[j] == if addr <= j < addr + i then bytes[j - addr] else old(data[j])
      {
        data[addr + i] := bytes[i];
      }
      assert data[..] == Overwrite(old(data[..]), addr, bytes);
      return None;
    }

    /** A length of 2^63 or more must not pass the wrapping bound check. */
    method Dump(addr: u64, len: u64) returns (v: Access<seq<byte>>)
      requires Valid() && (len < MAX_SIZE || !InBounds(data.Length, addr, len))
      ensures v == if len < MAX_SIZE then FlatLoad(data[..], addr, len) else Fault(OutOfRange)
    {
      var ok := CheckBounds(addr, len);
      if !ok { return Fault(OutOfRange); }
      return Done(data[addr..addr + len]);
    }
  }
}
