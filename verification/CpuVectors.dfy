/**
  Strip mining: VSETVL, VLD.V, VST.V and address updates, repeated until the count is used
  up, copy any number of doublewords exactly.
 */
module CpuVectors {
  import opened Ast
  import opened Words
  import opened Memory
  import opened MemoryTheorems
  import opened Cpu
  import CpuStack

  // ---- the code ----

  /** Registers of the loop: count, source, destination, scratch, and the vector register. */
  datatype Roles = Roles(n: Reg, src: Reg, dst: Reg, t: Reg, v: Reg)

  predicate Distinct(r: Roles) {
    0 != r.n && 0 != r.src && 0 != r.dst && 0 != r.t
    && r.n != r.src && r.n != r.dst && r.n != r.t && r.src != r.dst && r.src != r.t && r.dst != r.t
  }

  function AddOf(rd: Reg, a: Reg, b: Reg): Decoded { Decoded(Alu(AluOp.Add), rd, a, b, 0, false) }

  function SetVlOf(r: Roles): Decoded { Decoded(VSetVl, r.t, r.n, 0, 0, true) }

  function VLoadOf(r: Roles): Decoded { Decoded(VLoad(Unit), r.v, 0, r.src, 0, true) }

  function VStoreOf(r: Roles): Decoded { Decoded(VStore(Unit), r.v, 0, r.dst, 0, true) }

  /** Take at most four doublewords: load, store, then count and pointers move on by 8 bytes each. */
  function VectorPart(r: Roles): seq<Decoded> { [SetVlOf(r)] + [VLoadOf(r)] + [VStoreOf(r)] }

  function ScalarPart(r: Roles): seq<Decoded> {
    [Decoded(Alu(Sub), r.n, r.n, r.t, 0, false)] + [AddOf(r.t, r.t, r.t)] + [AddOf(r.t, r.t, r.t)]
      + [AddOf(r.t, r.t, r.t)]
    + [AddOf(r.src, r.src, r.t)] + [AddOf(r.dst, r.dst, r.t)]
  }

  lemma PartsWellFormed(r: Roles)
    ensures forall di | di in VectorPart(r) + ScalarPart(r) :: WellFormed(di)
    ensures (forall di | di in VectorPart(r) :: WellFormed(di)) && forall di | di in ScalarPart(r) :: WellFormed(di)
  {
  }

  function VectorRun(s: State, r: Roles): Outcome {
    PartsWellFormed(r);
    CpuStack.RunList(s, VectorPart(r))
  }

  function ScalarRun(s: State, r: Roles): Outcome {
    PartsWellFormed(r);
    CpuStack.RunList(s, ScalarPart(r))
  }

  function Round(s: State, r: Roles): Outcome {
    PartsWellFormed(r);
    CpuStack.RunList(s, VectorPart(r) + ScalarPart(r))
  }

  function Rounds(s: State, r: Roles, k: nat): Outcome
    decreases k
  {
    if k == 0 then Ran(s)
    else
      match Round(s, r)
      case Threw(t) => Threw(t)
      case Ran(t) => Rounds(t, r, k - 1)
  }

  // ---- loading lanes ----

  predicate CanRead(m: Mem, a: int) { 0 <= a < TWO64 && Load(m, a, 8).Done? }

  predicate CanWrite(m: Mem, a: int) { 0 <= a < TWO64 && Locate(m, a, 8).Done? && !m[Locate(m, a, 8).value].readOnly }

  lemma CanWriteWrites(m: Mem, a: u64, v: u64)
    requires CanWrite(m, a)
    ensures WriteMem(m, a, v, 8).Done?
  {
    hide Locate; hide Le;
  }

  /** Same shape, same places to read and write. */
  lemma AccessesStay(m: Mem, m': Mem, a: int)
    requires SameShape(m, m')
    ensures (CanRead(m, a) ==> CanRead(m', a)) && (CanWrite(m, a) ==> CanWrite(m', a))
  {
    if 0 <= a < TWO64 {
      LocateSame(m, m', a, 8);
      hide Locate;
    }
  }

  function DwordAt(m: Mem, a: u64): u64
    requires CanRead(m, a)
  {
    ReadMem(m, a, 8).value
  }

  lemma CanReadReads(m: Mem, a: u64)
    requires CanRead(m, a)
    ensures ReadMem(m, a, 8) == Done(DwordAt(m, a))
  {
    hide Load; hide FromLe;
  }

  /** Lanes `i` to `k` of a register hold what memory has from `base` on. */
  predicate LanesAre(lanes: Lanes, m: Mem, base: nat, i: nat, k: nat)
    requires k <= 4 && base + 8 * k <= TWO64 && forall j | i <= j < k :: CanRead(m, base + 8 * j)
  {
    forall j | i <= j < k :: lanes[j] == DwordAt(m, base + 8 * j)
  }

  lemma {:induction false} LanesLoaded(s: State, di: Decoded, base: nat, i: nat, k: nat)
    requires i <= k <= 4 && base == ReadReg(s, di.rs2) && base + 8 * k <= TWO64
    requires forall j | i <= j < k :: CanRead(s.mem, base + 8 * j)
    ensures VLoadFrom(s, di, Unit, i, k).Ran?
    ensures var t := VLoadFrom(s, di, Unit, i, k).s;
      t.mem == s.mem && t.regs == s.regs && t.vl == s.vl && LanesAre(t.vregs[di.rd], s.mem, base, i, k)
      && (forall j | 0 <= j < i :: t.vregs[di.rd][j] == s.vregs[di.rd][j])
      && (forall q: Reg | q != di.rd :: t.vregs[q] == s.vregs[q])
    decreases k - i
  {
    hide ReadMem; hide DwordAt; hide CanRead;
    if i < k {
      assert CanRead(s.mem, base + 8 * i);
      var v := DwordAt(s.mem, base + 8 * i);
      CanReadReads(s.mem, base + 8 * i);
      assert LaneAddr(s, di, Unit, i) == base + 8 * i;
      var t := SetLane(s, di.rd, i, v);
      LanesLoaded(t, di, base, i + 1, k);
    }
  }

  // ---- storing lanes ----

  /** Byte `off` of the lanes of a vector register laid out in memory. */
  function LaneByte(lanes: Lanes, off: nat): byte
    requires off < 32
  {
    Le(lanes[off / 8], 8)[off % 8]
  }

  /** Lanes `lo` to `hi` of a register written at `base`; no other byte changed. */
  ghost predicate LanesWritten(m: Mem, m': Mem, base: nat, lo: nat, hi: nat, lanes: Lanes)
    requires lo <= hi <= 4
  {
    forall a: u64 :: View(m', a) == Painted(m, base, lo, hi, lanes, a)
  }

  function Painted(m: Mem, base: nat, lo: nat, hi: nat, lanes: Lanes, a: u64): Option<byte>
    requires lo <= hi <= 4
  {
    if base + 8 * lo <= a < base + 8 * hi then Some(LaneByte(lanes, a - base)) else View(m, a)
  }

  lemma {:induction false} LanesStored(s: State, di: Decoded, i: nat, k: nat)
    requires i <= k <= 4 && Separate(s.mem) && ReadReg(s, di.rs2) + 8 * k <= TWO64
    requires forall j | i <= j < k :: CanWrite(s.mem, ReadReg(s, di.rs2) + 8 * j)
    ensures VStoreFrom(s, di, Unit, i, k).Ran?
    ensures var t := VStoreFrom(s, di, Unit, i, k).s;
      t.regs == s.regs && t.vregs == s.vregs && Separate(t.mem) && SameShape(s.mem, t.mem)
      && LanesWritten(s.mem, t.mem, ReadReg(s, di.rs2), i, k, s.vregs[di.rd])
    decreases k - i
  {
    hide WriteMem; hide View; hide Separate; hide SameShape; hide CanWrite; hide LaneByte; hide LanesWritten;
    var base, lanes := ReadReg(s, di.rs2), s.vregs[di.rd];
    if i < k {
      assert CanWrite(s.mem, base + 8 * i);
      LaneStored(s.mem, base, i, lanes);
      var m := WriteMem(s.mem, base + 8 * i, lanes[i], 8).value;
      var t := s.(mem := m);
      forall j | i + 1 <= j < k ensures CanWrite(m, base + 8 * j) {
        AccessesStay(s.mem, m, base + 8 * j);
      }
      LanesStored(t, di, i + 1, k);
      var m2 := VStoreFrom(t, di, Unit, i + 1, k).s.mem;
      CpuStack.SameShapeTrans(s.mem, m, m2);
      LanesJoin(s.mem, m, m2, base, i, k, lanes);
    } else {
      CpuStack.SameShapeRefl(s.mem);
      NoLanes(s.mem, base, i, lanes);
    }
  }

  lemma LanesJoin(m: Mem, m1: Mem, m2: Mem, base: nat, i: nat, k: nat, lanes: Lanes)
    requires i < k <= 4 && LanesWritten(m, m1, base, i, i + 1, lanes) && LanesWritten(m1, m2, base, i + 1, k, lanes)
    ensures LanesWritten(m, m2, base, i, k, lanes)
  {
    hide View; hide LaneByte;
  }

  lemma NoLanes(m: Mem, base: nat, i: nat, lanes: Lanes)
    requires i <= 4
    ensures LanesWritten(m, m, base, i, i, lanes)
  {
    hide View;
  }

  /** One lane stored: its eight bytes, and nothing else. */
  lemma LaneStored(m: Mem, base: nat, i: nat, lanes: Lanes)
    requires i < 4 && Separate(m) && base + 8 * i + 8 <= TWO64 && CanWrite(m, base + 8 * i)
    ensures WriteMem(m, base + 8 * i, lanes[i], 8).Done?
    ensures var m' := WriteMem(m, base + 8 * i, lanes[i], 8).value;
      Separate(m') && SameShape(m, m') && LanesWritten(m, m', base, i, i + 1, lanes)
  {
    hide WriteMem; hide View; hide Separate; hide SameShape; hide CanWrite; hide Le;
    var addr: u64 := base + 8 * i;
    CanWriteWrites(m, addr, lanes[i]);
    CpuStack.WriteEffect(m, addr, lanes[i], 8, 0);
    var m' := WriteMem(m, addr, lanes[i], 8).value;
    forall a: u64 ensures View(m', a) == Painted(m, base, i, i + 1, lanes, a) {
      CpuStack.WriteEffect(m, addr, lanes[i], 8, a);
      if addr <= a < addr + 8 {
        DivMod(a - base, 8, i, a - addr);
      }
    }
  }

  /** The bytes of a doubleword are the bytes of the memory it was read from. */
  lemma DwordByte(m: Mem, a: u64, b: nat)
    requires Separate(m) && CanRead(m, a) && b < 8 && a + b < TWO64
    ensures View(m, a + b) == Some(Le(DwordAt(m, a), 8)[b])
  {
    hide Load; hide View; hide Separate; hide Le; hide FromLe;
    LoadReadsBytes(m, a, 8);
    LeOfFromLe(Load(m, a, 8).value);
  }

  // ---- one round ----

  /** The doublewords still to copy can be read and written, and the two ranges do not meet. */
  predicate Ready(m: Mem, src: int, dst: int, n: nat) {
    0 <= src && 0 <= dst && src + 8 * n < TWO64 && dst + 8 * n < TWO64 && (src + 8 * n <= dst || dst + 8 * n <= src)
    && forall j | 0 <= j < n :: CanRead(m, src + 8 * j) && CanWrite(m, dst + 8 * j)
  }

  /** `n` doublewords from `src` are at `dst`; every other byte is as before. */
  ghost predicate Copied(m: Mem, m': Mem, src: int, dst: int, n: nat)
    requires 0 <= src && src + 8 * n <= TWO64
  {
    forall a: u64 :: View(m', a) == View(m, Origin(src, dst, n, a))
  }

  /** Where the byte at `a` comes from. */
  function Origin(src: int, dst: int, n: nat, a: u64): u64
    requires 0 <= src && src + 8 * n <= TWO64
  {
    if dst <= a < dst + 8 * n then src + (a - dst) else a
  }

  function Chunk(n: nat): nat { if n < 4 then n else 4 }

  lemma ReadyChunk(m: Mem, src: int, dst: int, n: nat)
    requires Ready(m, src, dst, n)
    ensures Ready(m, src, dst, Chunk(n))
  {
    hide CanRead; hide CanWrite;
  }

  lemma SetVlRuns(s: State, r: Roles)
    requires Distinct(r)
    ensures var c, t := Chunk(s.regs[r.n]), ExecVSetVl(s, SetVlOf(r));
      Exec(s, SetVlOf(r)) == Ran(t) && t.regs == s.regs[r.t := c] && t.mem == s.mem && t.vl == c && t.vregs == s.vregs
  {
    hide Wrap;
  }

  lemma VLoadRuns(s: State, r: Roles, src: nat, c: nat) returns (t: State)
    requires Distinct(r) && s.regs[r.src] == src && s.vl == c && c <= 4 && src + 8 * c < TWO64
    requires forall j | 0 <= j < c :: CanRead(s.mem, src + 8 * j)
    ensures Exec(s, VLoadOf(r)) == Ran(t) && t.mem == s.mem && t.regs == s.regs && t.vl == c
    ensures LanesAre(t.vregs[r.v], s.mem, src, 0, c)
    ensures forall q: Reg | q != r.v :: t.vregs[q] == s.vregs[q]
  {
    hide VLoadFrom; hide CanRead; hide LanesAre; hide Wrap;
    LanesLoaded(s, VLoadOf(r), src, 0, c);
    t := Next(VLoadFrom(s, VLoadOf(r), Unit, 0, c).s, VLoadOf(r));
  }

  lemma VStoreRuns(s: State, r: Roles, dst: nat, c: nat) returns (t: State)
    requires Distinct(r) && s.regs[r.dst] == dst && s.vl == c && c <= 4 && dst + 8 * c < TWO64 && Separate(s.mem)
    requires forall j | 0 <= j < c :: CanWrite(s.mem, dst + 8 * j)
    ensures Exec(s, VStoreOf(r)) == Ran(t) && t.regs == s.regs && t.vregs == s.vregs && Separate(t.mem)
      && SameShape(s.mem, t.mem)
    ensures LanesWritten(s.mem, t.mem, dst, 0, c, s.vregs[r.v])
  {
    hide VStoreFrom; hide CanWrite; hide LanesWritten; hide Wrap; hide Separate; hide SameShape;
    LanesStored(s, VStoreOf(r), 0, c);
    t := Next(VStoreFrom(s, VStoreOf(r), Unit, 0, c).s, VStoreOf(r));
  }

  lemma VectorPartRuns(s: State, r: Roles)
    requires Distinct(r) && Separate(s.mem) && Ready(s.mem, s.regs[r.src], s.regs[r.dst], s.regs[r.n])
    ensures Ready(s.mem, s.regs[r.src], s.regs[r.dst], Chunk(s.regs[r.n])) && VectorRun(s, r).Ran?
    ensures var t, c := VectorRun(s, r).s, Chunk(s.regs[r.n]);
      t.regs == s.regs[r.t := c] && Separate(t.mem) && SameShape(s.mem, t.mem)
      && Copied(s.mem, t.mem, s.regs[r.src], s.regs[r.dst], c) && forall q: Reg | q != r.v :: t.vregs[q] == s.vregs[q]
  {
    hide Exec; hide WellFormed; hide ExecVSetVl; hide View; hide Separate; hide SameShape; hide CanRead; hide CanWrite;
    hide Copied;
    hide CpuStack.RunList; hide LanesWritten; hide LanesAre;
    ReadyChunk(s.mem, s.regs[r.src], s.regs[r.dst], s.regs[r.n]);
    var c, src, dst := Chunk(s.regs[r.n]), s.regs[r.src], s.regs[r.dst];
    var s1 := ExecVSetVl(s, SetVlOf(r));
    SetVlRuns(s, r);
    var s2 := VLoadRuns(s1, r, src, c);
    var s3 := VStoreRuns(s2, r, dst, c);
    PartsWellFormed(r);
    ThreeRun(s, SetVlOf(r), VLoadOf(r), VStoreOf(r), s1, s2, s3);
    CopiedChunk(s.mem, s3.mem, src, dst, c, s2.vregs[r.v]);
  }

  lemma ThreeRun(s: State, a: Decoded, b: Decoded, d: Decoded, s1: State, s2: State, s3: State)
    requires WellFormed(a) && WellFormed(b) && WellFormed(d)
    requires Exec(s, a) == Ran(s1) && Exec(s1, b) == Ran(s2) && Exec(s2, d) == Ran(s3)
    ensures (forall di | di in [a] + [b] + [d] :: WellFormed(di)) && CpuStack.RunList(s, [a] + [b] + [d]) == Ran(s3)
  {
    hide Exec; hide WellFormed;
    assert ([a] + [b] + [d])[1..] == [b] + [d] && ([b] + [d])[1..] == [d] && [d][1..] == [];
    assert CpuStack.RunList(s2, [d]) == CpuStack.RunList(s3, []);
    assert CpuStack.RunList(s1, [b] + [d]) == CpuStack.RunList(s2, [d]);
  }

  lemma ByteCopied(m: Mem, src: nat, c: nat, lanes: Lanes, off: nat)
    requires c <= 4 && src + 8 * c < TWO64 && Separate(m) && off < 8 * c
      && forall j | 0 <= j < c :: CanRead(m, src + 8 * j)
    requires LanesAre(lanes, m, src, 0, c)
    ensures Some(LaneByte(lanes, off)) == View(m, src + off)
  {
    hide View; hide Separate; hide CanRead; hide DwordAt; hide Le;
    var j := off / 8;
    assert CanRead(m, src + 8 * j) && lanes[j] == DwordAt(m, src + 8 * j);
    DwordByte(m, src + 8 * j, off % 8);
  }

  /** Lanes loaded from one range and stored to the other make a copy. */
  lemma CopiedChunk(m: Mem, m': Mem, src: nat, dst: nat, c: nat, lanes: Lanes)
    requires c <= 4 && src + 8 * c < TWO64 && Separate(m) && forall j | 0 <= j < c :: CanRead(m, src + 8 * j)
    requires LanesAre(lanes, m, src, 0, c) && LanesWritten(m, m', dst, 0, c, lanes)
    ensures Copied(m, m', src, dst, c)
  {
    hide View; hide Separate; hide LaneByte; hide CanRead; hide LanesAre; hide Sized;
    forall a: u64 ensures View(m', a) == View(m, Origin(src, dst, c, a)) {
      if dst <= a < dst + 8 * c {
        ByteCopied(m, src, c, lanes, a - dst);
      }
    }
  }

  /** The addresses and the count move on by the chunk just copied. */
  lemma ScalarPartRuns(s: State, r: Roles)
    requires Distinct(r) && s.regs[r.t] <= 4 && s.regs[r.t] <= s.regs[r.n]
    requires s.regs[r.src] + 32 < TWO64 + 32 - 8 * s.regs[r.t] && s.regs[r.dst] + 32 < TWO64 + 32 - 8 * s.regs[r.t]
    ensures ScalarRun(s, r).Ran?
    ensures var t, c := ScalarRun(s, r).s, s.regs[r.t];
      t.mem == s.mem && t.vregs == s.vregs
      && t.regs == s.regs[r.n := s.regs[r.n] - c][r.t := 8 * c][r.src := s.regs[r.src] + 8 * c][r.dst := s.regs[r.dst]
        + 8 * c]
  {
    hide Exec; hide WellFormed; hide AluResult;
    var c := s.regs[r.t];
    var s1 := AluRun(s, AluOp.Sub, r.n, r.n, r.t, s.regs[r.n] - c);
    var s2 := AluRun(s1, AluOp.Add, r.t, r.t, r.t, 2 * c);
    var s3 := AluRun(s2, AluOp.Add, r.t, r.t, r.t, 4 * c);
    var s4 := AluRun(s3, AluOp.Add, r.t, r.t, r.t, 8 * c);
    var s5 := AluRun(s4, AluOp.Add, r.src, r.src, r.t, s.regs[r.src] + 8 * c);
    var s6 := AluRun(s5, AluOp.Add, r.dst, r.dst, r.t, s.regs[r.dst] + 8 * c);
    PartsWellFormed(r);
    var a, b, d := Decoded(Alu(AluOp.Sub), r.n, r.n, r.t, 0, false), AddOf(r.t, r.t, r.t), AddOf(r.src, r.src, r.t);
    ThreeRun(s, a, b, b, s1, s2, s3);
    ThreeRun(s3, b, d, AddOf(r.dst, r.dst, r.t), s4, s5, s6);
    assert ScalarPart(r) == ([a] + [b] + [b]) + ([b] + [d] + [AddOf(r.dst, r.dst, r.t)]);
    CpuStack.RunAppend(s, [a] + [b] + [b], [b] + [d] + [AddOf(r.dst, r.dst, r.t)]);
  }

  /** One addition or subtraction that does not wrap. */
  lemma AluRun(s: State, op: AluOp, rd: Reg, a: Reg, b: Reg, v: int) returns (t: State)
    requires rd != 0 && a != 0 && b != 0 && 0 <= v < TWO64
    requires (op.Add? && v == s.regs[a] as int + s.regs[b]) || (op.Sub? && v == s.regs[a] as int - s.regs[b])
    ensures WellFormed(Decoded(Alu(op), rd, a, b, 0, false)) && Exec(s, Decoded(Alu(op), rd, a, b, 0, false)) == Ran(t)
    ensures t.regs == s.regs[rd := v] && t.mem == s.mem && t.vregs == s.vregs
  {
    t := Next(WriteReg(s, rd, v), Decoded(Alu(op), rd, a, b, 0, false));
    assert AluResult(op, s.regs[a], s.regs[b], 0) == v;
  }

  lemma RoundRuns(s: State, r: Roles)
    requires Distinct(r) && Separate(s.mem) && Ready(s.mem, s.regs[r.src], s.regs[r.dst], s.regs[r.n])
    ensures Ready(s.mem, s.regs[r.src], s.regs[r.dst], Chunk(s.regs[r.n])) && Round(s, r).Ran?
    ensures var t, c := Round(s, r).s, Chunk(s.regs[r.n]);
      t.regs == s.regs[r.n := s.regs[r.n] - c][r.t := 8 * c][r.src := s.regs[r.src] + 8 * c][r.dst := s.regs[r.dst]
        + 8 * c]
      && Separate(t.mem) && SameShape(s.mem, t.mem) && Copied(s.mem, t.mem, s.regs[r.src], s.regs[r.dst], c)
      && forall q: Reg | q != r.v :: t.vregs[q] == s.vregs[q]
  {
    hide Copied; hide View; hide Separate; hide SameShape; hide CanRead; hide CanWrite; hide VectorPart;
    hide ScalarPart;
    hide CpuStack.RunList;
    VectorPartRuns(s, r);
    PartsWellFormed(r);
    var t := VectorRun(s, r).s;
    ScalarPartRuns(t, r);
    CpuStack.RunAppend(s, VectorPart(r), ScalarPart(r));
  }

  // ---- the whole copy ----

  /** What is left after a chunk is ready, in the memory the chunk was copied in. */
  lemma ReadyRest(m: Mem, m': Mem, src: int, dst: int, n: nat)
    requires Ready(m, src, dst, n) && SameShape(m, m')
    ensures var c := Chunk(n); Ready(m', src + 8 * c, dst + 8 * c, n - c)
  {
    hide CanRead; hide CanWrite; hide SameShape;
    var c := Chunk(n);
    forall j | 0 <= j < n - c
      ensures CanRead(m', src + 8 * c + 8 * j) && CanWrite(m', dst + 8 * c + 8 * j)
    {
      assert src + 8 * c + 8 * j == src + 8 * (c + j) && dst + 8 * c + 8 * j == dst + 8 * (c + j);
      AccessesStay(m, m', src + 8 * (c + j));
      AccessesStay(m, m', dst + 8 * (c + j));
    }
  }

  /** Copying `c` doublewords, then the other `n - c`, copies all `n`. */
  lemma CopiedOn(m: Mem, m1: Mem, m2: Mem, src: nat, dst: nat, n: nat, c: nat)
    requires c <= n && src + 8 * n < TWO64 && dst + 8 * n < TWO64 && (src + 8 * n <= dst || dst + 8 * n <= src)
    requires Copied(m, m1, src, dst, c) && Copied(m1, m2, src + 8 * c, dst + 8 * c, n - c)
    ensures Copied(m, m2, src, dst, n)
  {
    hide View;
    forall a: u64 ensures View(m2, a) == View(m, Origin(src, dst, n, a)) {
      var b := Origin(src + 8 * c, dst + 8 * c, n - c, a);
      assert View(m2, a) == View(m1, b);
      assert View(m1, b) == View(m, Origin(src, dst, c, b));
    }
  }

  function RoundsFor(n: nat): nat { (n + 3) / 4 }

  /**
    ceil(n/4) rounds copy n doublewords exactly and touch no other byte; the count is used up
    then and not before, and no other scalar or vector register changes.
   */
  lemma {:induction false} StripMinedCopy(s: State, r: Roles)
    requires Distinct(r) && Separate(s.mem) && Ready(s.mem, s.regs[r.src], s.regs[r.dst], s.regs[r.n])
    ensures Rounds(s, r, RoundsFor(s.regs[r.n])).Ran?
    ensures var t := Rounds(s, r, RoundsFor(s.regs[r.n])).s;
      t.regs[r.n] == 0 && t.regs[r.src] == s.regs[r.src] + 8 * s.regs[r.n]
        && t.regs[r.dst] == s.regs[r.dst] + 8 * s.regs[r.n]
      && Separate(t.mem) && Copied(s.mem, t.mem, s.regs[r.src], s.regs[r.dst], s.regs[r.n])
      && (forall q: Reg | q !in {r.n, r.src, r.dst, r.t} :: t.regs[q] == s.regs[q])
      && (forall q: Reg | q != r.v :: t.vregs[q] == s.vregs[q])
    decreases s.regs[r.n]
  {
    hide Round; hide Copied; hide View; hide Separate; hide SameShape; hide CanRead; hide CanWrite; hide Ready;
    var n := s.regs[r.n];
    if n == 0 {
      NothingCopied(s.mem, s.regs[r.src], s.regs[r.dst]);
    } else {
      RoundRuns(s, r);
      var t := Round(s, r).s;
      ReadyRest(s.mem, t.mem, s.regs[r.src], s.regs[r.dst], n);
      ReadyApart(s.mem, s.regs[r.src], s.regs[r.dst], n);
      StripMinedCopy(t, r);
      CopiedOn(s.mem, t.mem, Rounds(t, r, RoundsFor(t.regs[r.n])).s.mem, s.regs[r.src], s.regs[r.dst], n, Chunk(n));
      assert RoundsFor(n) == RoundsFor(n - Chunk(n)) + 1;
    }
  }

  lemma ReadyApart(m: Mem, src: int, dst: int, n: nat)
    requires Ready(m, src, dst, n)
    ensures src + 8 * n < TWO64 && dst + 8 * n < TWO64 && (src + 8 * n <= dst || dst + 8 * n <= src)
  {
  }

  lemma NothingCopied(m: Mem, src: int, dst: int)
    requires Ready(m, src, dst, 0)
    ensures Copied(m, m, src, dst, 0)
  {
    hide View;
  }

  /** Before the last round the count is not used up: a loop that tests it makes exactly these rounds. */
  lemma {:induction false} CountLeft(s: State, r: Roles, k: nat)
    requires Distinct(r) && Separate(s.mem) && Ready(s.mem, s.regs[r.src], s.regs[r.dst], s.regs[r.n])
    requires k < RoundsFor(s.regs[r.n])
    ensures Rounds(s, r, k).Ran? && Rounds(s, r, k).s.regs[r.n] == s.regs[r.n] - 4 * k > 0
    decreases k
  {
    hide Round; hide Copied; hide View; hide Separate; hide SameShape; hide CanRead; hide CanWrite; hide Ready;
    if k > 0 {
      RoundRuns(s, r);
      var t := Round(s, r).s;
      ReadyRest(s.mem, t.mem, s.regs[r.src], s.regs[r.dst], s.regs[r.n]);
      CountLeft(t, r, k - 1);
    }
  }
}
