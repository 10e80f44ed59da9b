/**
  The region memory agrees with a flat partial map from addresses to bytes.
 */
module MemoryTheorems {
  import opened Ast
  import opened Words
  import opened Memory

  /** The flat map: the byte at an address, if some region maps it. */
  function View(rs: seq<Region>, a: u64): Option<byte>
    requires Sized(rs)
  {
    match Find(rs, a)
    case None => None
    case Some(k) =>
      assert rs[k] in rs;
      Some(rs[k].data[a - rs[k].base])
  }

  predicate ReadOnlyAt(rs: seq<Region>, a: u64) {
    Find(rs, a).Some? && rs[Find(rs, a).value].readOnly
  }

  function End(r: Region): nat { r.base + |r.data| }

  /** Regions end below the top of the address space and do not overlap. */
  predicate Separate(rs: seq<Region>) {
    Sized(rs) && (forall r | r in rs :: End(r) < TWO64)
    && forall i, j | 0 <= i < j < |rs| :: End(rs[i]) <= rs[j].base || End(rs[j]) <= rs[i].base
  }

  /**
    The bytes of a region are found exactly when it ends below 2^64: one that ends at the top
    of the address space, or beyond it, is never found, because the end it is compared with wraps.
   */
  lemma RegionFoundExactlyWhen(r: Region, addr: u64)
    requires |r.data| < MAX_SIZE && r.base <= addr < End(r)
    ensures Contains(r, addr) <==> End(r) < TWO64
    ensures End(r) >= TWO64 ==> forall a: u64 :: !Contains(r, a)
  {
    if End(r) >= TWO64 {
      assert End(r) % TWO64 == End(r) - TWO64;
    }
  }

  /** Same regions but for the bytes in them. */
  predicate SameShape(rs: seq<Region>, rs': seq<Region>) {
    |rs| == |rs'| && forall i | 0 <= i < |rs| ::
      rs[i].base == rs'[i].base && |rs[i].data| == |rs'[i].data| && rs[i].kind == rs'[i].kind
        && rs[i].readOnly == rs'[i].readOnly
  }

  lemma {:induction false} FindSame(rs: seq<Region>, rs': seq<Region>, a: u64, i: nat)
    requires SameShape(rs, rs') && i <= |rs|
    ensures FindFrom(rs, a, i) == FindFrom(rs', a, i)
    decreases |rs| - i
  {
    if i < |rs| { FindSame(rs, rs', a, i + 1); }
  }

  lemma LocateSame(rs: seq<Region>, rs': seq<Region>, addr: u64, n: nat)
    requires SameShape(rs, rs')
    ensures Locate(rs, addr, n) == Locate(rs', addr, n)
  {
    FindSame(rs, rs', addr, 0);
  }

  lemma FindIs(rs: seq<Region>, k: nat, a: u64)
    requires Separate(rs) && k < |rs| && rs[k].base <= a < End(rs[k])
    ensures Find(rs, a) == Some(k)
  {
    assert rs[k] in rs;
    if Find(rs, a).Some? {
      var j := Find(rs, a).value;
      assert rs[j] in rs;
    }
  }

  // ---- loads ----

  /** A load that succeeds reads, byte by byte, what the flat map holds. */
  lemma LoadReadsBytes(rs: seq<Region>, addr: u64, n: nat)
    requires Separate(rs) && n < MAX_SIZE && Load(rs, addr, n).Done?
    ensures addr + n <= TWO64
    ensures forall j: nat | j < n :: View(rs, addr + j) == Some(Load(rs, addr, n).value[j])
  {
    LocatedInside(rs, addr, n);
    var k := Locate(rs, addr, n).value;
    assert rs[k] in rs;
    forall j: nat | j < n ensures View(rs, addr + j) == Some(Load(rs, addr, n).value[j]) {
      FindIs(rs, k, addr + j);
    }
  }

  /** An access of n bytes is possible exactly when one region holds them all. */
  lemma AccessExactlyWhen(rs: seq<Region>, addr: u64, n: nat)
    requires Separate(rs) && 0 < n < MAX_SIZE
    ensures Load(rs, addr, n).Done? <==> exists r :: r in rs && r.base <= addr && addr + n <= End(r)
    ensures forall bytes: seq<byte> | |bytes| == n ::
      Store(rs, addr, bytes).Done? <==> exists r :: r in rs && !r.readOnly && r.base <= addr && addr + n <= End(r)
  {
    if Locate(rs, addr, n).Done? {
      LocatedInside(rs, addr, n);
      var r := rs[Locate(rs, addr, n).value];
      assert r in rs && r.base <= addr && addr + n <= End(r);
    }
    forall r | r in rs && r.base <= addr && addr + n <= End(r)
      ensures Locate(rs, addr, n).Done? && rs[Locate(rs, addr, n).value] == r
    {
      var k :| 0 <= k < |rs| && rs[k] == r;
      FindIs(rs, k, addr);
    }
  }

  /** Bytes that two adjacent regions share are all mapped, and no access reaches across. */
  lemma AdjacentRegionsDoNotJoin(low: Region, high: Region, addr: u64, n: nat)
    requires Separate([low, high]) && End(low) == high.base && n < MAX_SIZE
    requires low.base <= addr < End(low) < addr + n <= End(high)
    ensures forall a | addr <= a < addr + n :: View([low, high], a).Some?
    ensures Load([low, high], addr, n) == Fault(OutOfRange)
  {
    hide Find;
    var rs := [low, high];
    assert rs[0] == low && rs[1] == high && low in rs && high in rs;
    forall a | addr <= a < addr + n ensures View(rs, a).Some? {
      FindIs(rs, if a < high.base then 0 else 1, a);
    }
    FindIs(rs, 0, addr);
  }

  // ---- stores ----

  lemma StoreShape(rs: seq<Region>, addr: u64, bytes: seq<byte>)
    requires Sized(rs) && |bytes| < MAX_SIZE && Store(rs, addr, bytes).Done?
    ensures SameShape(rs, Store(rs, addr, bytes).value)
  {
    LocatedInside(rs, addr, |bytes|);
  }

  lemma ShapeSeparate(rs: seq<Region>, rs': seq<Region>)
    requires Separate(rs) && SameShape(rs, rs')
    ensures Separate(rs')
  {
    forall r | r in rs' ensures |r.data| < MAX_SIZE && End(r) < TWO64 {
      var k :| 0 <= k < |rs'| && rs'[k] == r;
      assert rs[k] in rs;
    }
  }

  lemma StoreIs(rs: seq<Region>, addr: u64, bytes: seq<byte>)
    requires Sized(rs) && |bytes| < MAX_SIZE && Store(rs, addr, bytes).Done?
    ensures Locate(rs, addr, |bytes|).Done?
    ensures var k := Locate(rs, addr, |bytes|).value;
      rs[k].base <= addr && addr - rs[k].base + |bytes| <= |rs[k].data|
      && Store(rs, addr, bytes).value == rs[k := rs[k].(data := Overwrite(rs[k].data, addr - rs[k].base, bytes))]
  {
    LocatedInside(rs, addr, |bytes|);
  }

  lemma ViewChanged(rs: seq<Region>, rs': seq<Region>, k: nat, off: nat, bytes: seq<byte>, a: u64)
    requires Sized(rs) && Sized(rs') && k < |rs| && off + |bytes| <= |rs[k].data|
    requires rs' == rs[k := rs[k].(data := Overwrite(rs[k].data, off, bytes))] && Find(rs', a) == Find(rs, a)
    ensures View(rs', a) ==
      if Find(rs, a) == Some(k) && off <= a - rs[k].base < off + |bytes| then Some(bytes[a - rs[k].base - off])
        else View(rs, a)
  {
    hide Find;
  }

  /** A store changes the bytes it names and no other, and keeps every region. */
  lemma StoreWritesBytes(rs: seq<Region>, addr: u64, bytes: seq<byte>, a: u64)
    requires Separate(rs) && |bytes| < MAX_SIZE && Store(rs, addr, bytes).Done?
    ensures var rs' := Store(rs, addr, bytes).value;
      Separate(rs') && SameShape(rs, rs')
      && View(rs', a) == (if addr <= a < addr + |bytes| then Some(bytes[a - addr]) else View(rs, a))
  {
    hide Locate; hide Find; hide SameShape; hide View; hide Store; hide Sized;
    var rs' := Store(rs, addr, bytes).value;
    StoreShape(rs, addr, bytes);
    ShapeSeparate(rs, rs');
    FindSame(rs, rs', a, 0);
    FindFromStart(rs, a);
    FindFromStart(rs', a);
    StoreIs(rs, addr, bytes);
    StoreInside(rs, addr, bytes, a);
    var k := Locate(rs, addr, |bytes|).value;
    ViewChanged(rs, rs', k, addr - rs[k].base, bytes, a);
  }

  lemma StoreInside(rs: seq<Region>, addr: u64, bytes: seq<byte>, a: u64)
    requires Separate(rs) && |bytes| < MAX_SIZE && Store(rs, addr, bytes).Done?
    ensures var k := Locate(rs, addr, |bytes|).value;
      addr - rs[k].base + |bytes| <= |rs[k].data| && (addr <= a < addr + |bytes| ==> Find(rs, a) == Some(k))
  {
    LocatedInside(rs, addr, |bytes|);
    if addr <= a < addr + |bytes| {
      FindIs(rs, Locate(rs, addr, |bytes|).value, a);
    }
  }

  /** What was stored is loaded back. */
  lemma LoadOfStored(rs: seq<Region>, addr: u64, bytes: seq<byte>)
    requires Sized(rs) && |bytes| < MAX_SIZE && Store(rs, addr, bytes).Done?
    ensures Load(Store(rs, addr, bytes).value, addr, |bytes|) == Done(bytes)
  {
    var rs' := Store(rs, addr, bytes).value;
    StoreShape(rs, addr, bytes);
    LocateSame(rs, rs', addr, |bytes|);
    LocatedInside(rs, addr, |bytes|);
    hide Locate;
    var k := Locate(rs, addr, |bytes|).value;
    assert rs'[k].data[addr - rs[k].base..addr - rs[k].base + |bytes|] == bytes;
  }

  /** A load that misses every stored byte reads what it read before. */
  lemma LoadElsewhere(rs: seq<Region>, addr: u64, bytes: seq<byte>, b: u64, n: nat)
    requires Sized(rs) && |bytes| < MAX_SIZE && n < MAX_SIZE && Store(rs, addr, bytes).Done?
    requires b + n <= addr || addr + |bytes| <= b
    ensures Load(Store(rs, addr, bytes).value, b, n) == Load(rs, b, n)
  {
    var rs' := Store(rs, addr, bytes).value;
    StoreShape(rs, addr, bytes);
    LocateSame(rs, rs', b, n);
    LocatedInside(rs, addr, |bytes|);
    if Locate(rs, b, n).Done? {
      LocatedInside(rs, b, n);
      hide Locate;
      var k, j := Locate(rs, b, n).value, Locate(rs, addr, |bytes|).value;
      if j == k {
        assert rs'[k].data[b - rs[k].base..b - rs[k].base + n] == rs[k].data[b - rs[k].base..b - rs[k].base + n];
      }
    }
  }

  /** Where a load is possible does not change with a store. */
  lemma LoadStaysPossible(rs: seq<Region>, addr: u64, bytes: seq<byte>, b: u64, n: nat)
    requires Sized(rs) && |bytes| < MAX_SIZE && n < MAX_SIZE && Store(rs, addr, bytes).Done?
    ensures Load(Store(rs, addr, bytes).value, b, n).Done? <==> Load(rs, b, n).Done?
  {
    StoreShape(rs, addr, bytes);
    LocateSame(rs, Store(rs, addr, bytes).value, b, n);
    hide Locate;
  }

  /** Where a store is possible does not change with the bytes stored. */
  lemma StoreStaysPossible(rs: seq<Region>, rs': seq<Region>, addr: u64, bytes: seq<byte>)
    requires Sized(rs) && Sized(rs') && SameShape(rs, rs') && |bytes| < MAX_SIZE
    ensures Store(rs, addr, bytes).Done? <==> Store(rs', addr, bytes).Done?
  {
    LocateSame(rs, rs', addr, |bytes|);
    hide Locate;
  }

  // ---- adding regions ----

  lemma {:induction false} FindInLonger(rs: seq<Region>, r: Region, a: u64, i: nat)
    requires i <= |rs|
    ensures FindFrom(rs + [r], a, i) ==
      if FindFrom(rs, a, i).Some? then FindFrom(rs, a, i) else if Contains(r, a) then Some(|rs|) else None
    decreases |rs| - i
  {
    if i < |rs| {
      FindInLonger(rs, r, a, i + 1);
    } else {
      assert FindFrom(rs + [r], a, |rs| + 1) == None;
    }
  }

  /** A new region never changes a byte already mapped, overlapping or not; it maps the rest of its range. */
  lemma AddingKeepsBytes(rs: seq<Region>, r: Region, a: u64)
    requires Sized(rs) && |r.data| < MAX_SIZE
    ensures Sized(rs + [r])
    ensures View(rs + [r], a) ==
      if View(rs, a).Some? then View(rs, a) else if Contains(r, a) then Some(r.data[a - r.base]) else None
    ensures ReadOnlyAt(rs, a) ==> ReadOnlyAt(rs + [r], a)
  {
    forall x | x in rs + [r] ensures |x.data| < MAX_SIZE {
      assert x in rs || x == r;
    }
    FindInLonger(rs, r, a, 0);
  }

  // ---- sequences of operations ----

  datatype Op =
    | PutByte(addr: u64, val: byte)
    | Put(addr: u64, bytes: seq<byte>)
    | Add(region: Region)
    | AddHandled(region: Region)
    | Guard(base: u64, size: nat, readOnly: bool)
    | Clear

  predicate Sensible(op: Op) {
    (op.Put? ==> |op.bytes| < MAX_SIZE) && (op.Add? || op.AddHandled? ==> |op.region.data| < MAX_SIZE)
  }

  /** The regions and the bases that have a handler. */
  datatype Mapped = Mapped(regions: seq<Region>, handlers: set<u64>)

  /** The regions after an operation; a failed or handled write leaves them. */
  function Apply(rs: seq<Region>, handlers: set<u64>, op: Op): (r: seq<Region>)
    requires Sized(rs) && Sensible(op)
    ensures Sized(r)
  {
    match op
    case PutByte(a, v) => (var r := StoreByte(rs, handlers, a, v); if r.Done? then r.value else rs)
    case Put(a, bytes) => (var r := Store(rs, a, bytes); if r.Done? then r.value else rs)
    case Add(region) => (assert forall x | x in rs + [region] :: x in rs || x == region; rs + [region])
    case AddHandled(region) => (assert forall x | x in rs + [region] :: x in rs || x == region; rs + [region])
    case Guard(base, size, ro) =>
      var r := Protect(rs, base, size, ro);
      assert forall x | x in r :: |x.data| < MAX_SIZE by {
        forall x | x in r ensures |x.data| < MAX_SIZE {
          var k :| 0 <= k < |r| && r[k] == x;
          assert rs[k] in rs;
        }
      }
      r
    case Clear => []
  }

  /** And the handlers: an MMIO region brings one, clearing drops them all. */
  function Handlers(handlers: set<u64>, op: Op): set<u64> {
    if op.AddHandled? then handlers + {op.region.base} else if op.Clear? then {} else handlers
  }

  function ApplyAll(m: Mapped, ops: seq<Op>): (r: Mapped)
    requires Sized(m.regions) && forall op | op in ops :: Sensible(op)
    ensures Sized(r.regions)
    decreases |ops|
  {
    if ops == [] then m
    else ApplyAll(Mapped(Apply(m.regions, m.handlers, ops[0]), Handlers(m.handlers, ops[0])), ops[1..])
  }

  predicate Unlocks(op: Op) { op.Clear? || (op.Guard? && !op.readOnly) }

  lemma {:induction false} GuardKeeps(rs: seq<Region>, base: u64, size: nat, i: nat, k: nat)
    requires i <= |rs| && k < |rs|
    ensures var r := ProtectFrom(rs, base, size, true, i);
      |r| == |rs| && r[k].base == rs[k].base && r[k].data == rs[k].data && (rs[k].readOnly ==> r[k].readOnly)
    decreases |rs| - i
  {
    if i < |rs| { GuardKeeps(rs, base, size, i + 1, k); }
  }

  lemma {:induction false} FindByExtent(rs: seq<Region>, rs': seq<Region>, a: u64, i: nat)
    requires |rs| == |rs'| && i <= |rs|
    requires forall j | 0 <= j < |rs| :: rs[j].base == rs'[j].base && |rs[j].data| == |rs'[j].data|
    ensures FindFrom(rs, a, i) == FindFrom(rs', a, i)
    decreases |rs| - i
  {
    if i < |rs| { FindByExtent(rs, rs', a, i + 1); }
  }

  lemma StepKeepsReadOnly(rs: seq<Region>, handlers: set<u64>, op: Op, a: u64)
    requires Sized(rs) && Sensible(op) && !Unlocks(op) && ReadOnlyAt(rs, a)
    ensures var rs' := Apply(rs, handlers, op); ReadOnlyAt(rs', a) && View(rs', a) == View(rs, a)
  {
    hide ReadOnlyAt; hide View; hide Find; hide Store; hide StoreByte; hide Protect;
    match op
    case Add(r) => AddKeepsReadOnly(rs, r, a);
    case AddHandled(r) => AddKeepsReadOnly(rs, r, a);
    case Guard(base, size, _) => GuardKeepsReadOnly(rs, handlers, base, size, a);
    case PutByte(addr, v) => PutByteKeepsReadOnly(rs, handlers, addr, v, a);
    case Put(addr, bytes) =>
      if Store(rs, addr, bytes).Done? { PutKeepsReadOnly(rs, addr, bytes, a); }
  }

  lemma GuardKeepsReadOnly(rs: seq<Region>, handlers: set<u64>, base: u64, size: nat, a: u64)
    requires Sized(rs) && ReadOnlyAt(rs, a)
    ensures var rs' := Apply(rs, handlers, Guard(base, size, true)); ReadOnlyAt(rs', a) && View(rs', a) == View(rs, a)
  {
    var rs' := Protect(rs, base, size, true);
    FindByExtent(rs, rs', a, 0);
    GuardKeeps(rs, base, size, 0, Find(rs, a).value);
  }

  lemma AddKeepsReadOnly(rs: seq<Region>, r: Region, a: u64)
    requires Sized(rs) && |r.data| < MAX_SIZE && ReadOnlyAt(rs, a)
    ensures Sized(rs + [r]) && ReadOnlyAt(rs + [r], a) && View(rs + [r], a) == View(rs, a)
  {
    hide Find;
    AddingKeepsBytes(rs, r, a);
  }

  lemma StoreByteShape(rs: seq<Region>, handlers: set<u64>, addr: u64, v: byte)
    requires Sized(rs) && StoreByte(rs, handlers, addr, v).Done?
    ensures SameShape(rs, StoreByte(rs, handlers, addr, v).value)
  {
    hide Find;
  }

  lemma ByteKeepsReadOnly(rs: seq<Region>, handlers: set<u64>, addr: u64, v: byte, a: u64)
    requires Sized(rs) && ReadOnlyAt(rs, a) && StoreByte(rs, handlers, addr, v).Done?
    ensures var rs' := StoreByte(rs, handlers, addr, v).value; ReadOnlyAt(rs', a) && View(rs', a) == View(rs, a)
  {
    hide Find; hide SameShape; hide FindFrom;
    var rs' := StoreByte(rs, handlers, addr, v).value;
    StoreByteShape(rs, handlers, addr, v);
    FindSame(rs, rs', a, 0);
    FindFromStart(rs, a);
    FindFromStart(rs', a);
  }

  lemma PutByteKeepsReadOnly(rs: seq<Region>, handlers: set<u64>, addr: u64, v: byte, a: u64)
    requires Sized(rs) && ReadOnlyAt(rs, a)
    ensures var rs' := Apply(rs, handlers, PutByte(addr, v)); ReadOnlyAt(rs', a) && View(rs', a) == View(rs, a)
  {
    hide Find; hide StoreByte; hide ReadOnlyAt; hide View;
    if StoreByte(rs, handlers, addr, v).Done? {
      ByteKeepsReadOnly(rs, handlers, addr, v, a);
    }
  }

  lemma PutKeepsReadOnly(rs: seq<Region>, addr: u64, bytes: seq<byte>, a: u64)
    requires Sized(rs) && |bytes| < MAX_SIZE && ReadOnlyAt(rs, a) && Store(rs, addr, bytes).Done?
    ensures var rs' := Store(rs, addr, bytes).value; ReadOnlyAt(rs', a) && View(rs', a) == View(rs, a)
  {
    hide Locate; hide Find;
    var rs' := Store(rs, addr, bytes).value;
    StoreShape(rs, addr, bytes);
    FindSame(rs, rs', a, 0);
    FindFromStart(rs, a);
    FindFromStart(rs', a);
  }

  lemma FindFromStart(rs: seq<Region>, a: u64)
    ensures Find(rs, a) == FindFrom(rs, a, 0)
  {
  }

  /** Read-only bytes keep their value over any operations, until protection is lifted or the memory cleared. */
  lemma {:induction false} ReadOnlyBytesLast(m: Mapped, ops: seq<Op>, a: u64)
    requires Sized(m.regions) && (forall op | op in ops :: Sensible(op) && !Unlocks(op)) && ReadOnlyAt(m.regions, a)
    ensures var rs := ApplyAll(m, ops).regions; ReadOnlyAt(rs, a) && View(rs, a) == View(m.regions, a)
    decreases ops
  {
    hide Apply; hide ReadOnlyAt; hide View; hide Sized;
    if ops != [] {
      StepKeepsReadOnly(m.regions, m.handlers, ops[0], a);
      ReadOnlyBytesLast(Mapped(Apply(m.regions, m.handlers, ops[0]), Handlers(m.handlers, ops[0])), ops[1..], a);
    }
  }

  // ---- handlers ----

  /**
    Byte accesses to an MMIO region with a handler reach it, unless a write is refused first;
    a wider access to the same addresses reads and writes the region's own bytes instead.
   */
  lemma WideAccessBypassesHandler(rs: seq<Region>, handlers: set<u64>, k: nat, a: u64, bytes: seq<byte>, v: byte)
    requires Separate(rs) && k < |rs| && 2 <= |bytes| < MAX_SIZE
    requires rs[k].kind == Mmio && rs[k].base in handlers && rs[k].base <= a && a + |bytes| <= End(rs[k])
    ensures LoadByte(rs, handlers, a) == Handler(rs[k].base)
    ensures StoreByte(rs, handlers, a, v) == if rs[k].readOnly then Fault(ReadOnlyWrite) else Handler(rs[k].base)
    ensures Load(rs, a, |bytes|) == Done(rs[k].data[a - rs[k].base..a - rs[k].base + |bytes|])
    ensures Store(rs, a, bytes) ==
      if rs[k].readOnly then Fault(ReadOnlyWrite)
      else Done(rs[k := rs[k].(data := Overwrite(rs[k].data, a - rs[k].base, bytes))])
  {
    assert rs[k] in rs;
    FindIs(rs, k, a);
  }
}
