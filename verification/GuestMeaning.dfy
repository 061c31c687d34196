/** What the reference interpreter's instructions leave, and where, without its own helpers. */
module GuestMeaning {
  import opened Words
  import opened Flags
  import opened Alu
  import opened Cond
  import opened Guest
  import opened FlagMeaning

  // ---- addresses ----

  function Factor(shift: Log): nat {
    match shift case 0 => 1 case 1 => 2 case 2 => 4 case 3 => 8
  }

  /** Displacement, base, index times 1, 2, 4 or 8 -- the index's low byte alone where it asks for that -- and the segment's base. */
  lemma AddressIsTheSum(c: Cpu, m: MemRef)
    ensures var base := if m.base.NoBase? then 0 else c.regs[m.base.reg];
      var index := if m.index.NoIndex? then 0
                   else Factor(m.index.shift) * (if m.index.lowByte then RegRead(c.regs, m.index.reg, W1) else c.regs[m.index.reg]);
      var segment := if m.seg == Fs then c.fsBase else if m.seg == Gs then c.gsBase else 0;
      EffectiveAddress(c, m) == (m.disp + base + index + segment) % 0x1_0000_0000
  {
    hide Lo32, RegRead;
    var base := if m.base.NoBase? then 0 else c.regs[m.base.reg];
    var index := IndexValue(c.regs, m.index);
    BaseIsTheRegister(c.regs, m.base);
    IndexIsScaled(c.regs, m.index);
    SumOfFour(m.disp, base, index, SegmentBase(c, m.seg));
    if m.index.Index? {
      SumReduced(m.disp + base + SegmentBase(c, m.seg),
                 Factor(m.index.shift) * RegRead(c.regs, m.index.reg, if m.index.lowByte then W1 else W4));
      WholeRegister(c.regs, m.index.reg);
    }
  }

  lemma WholeRegister(regs: Regs, r: RegIndex)
    ensures RegRead(regs, r, W4) == regs[r]
  {
  }

  lemma BaseIsTheRegister(regs: Regs, b: Base)
    ensures BaseValue(regs, b) == if b.NoBase? then 0 else regs[b.reg]
  {
  }

  lemma IndexIsScaled(regs: Regs, ix: Index)
    ensures ix.NoIndex? ==> IndexValue(regs, ix) == 0
    ensures ix.Index? ==>
      IndexValue(regs, ix) == Lo32(Factor(ix.shift) * RegRead(regs, ix.reg, if ix.lowByte then W1 else W4))
  {
    hide RegRead, Lo32;
    if ix.Index? { PowerIsFactor(ix.shift); }
  }

  lemma PowerIsFactor(shift: Log)
    ensures Pow2(shift) == Factor(shift)
  {
    assert Pow2(0) == 1 && Pow2(1) == 2 && Pow2(2) == 4 && Pow2(3) == 8;
  }

  lemma SumOfFour(a: Word, b: Word, x: Word, s: Word)
    ensures Plus(Plus(Plus(a, b), x), s) == (a + b + x + s) % 0x1_0000_0000
  {
    var m := 0x1_0000_0000;
    var v := (a + b) % m;
    var u := (v + x) % m;
    ModUnique(a + b + x + s, m, (a + b) / m + (v + x) / m + (u + s) / m, (u + s) % m);
  }

  lemma SumReduced(a: nat, v: nat)
    ensures (a + Lo32(v)) % 0x1_0000_0000 == (a + v) % 0x1_0000_0000
  {
  }

  /** An access is admitted exactly when each of its bytes is mapped and below 2^32. */
  lemma InRangeExactly(m: Memory, addr: Word, w: Width)
    ensures var n := match w case W1 => 1 case W2 => 2 case W4 => 4;
      InRange(m, addr, w) <==> forall x: int | addr <= x < addr + n :: MappedByte(m, x)
  {
    var n := match w case W1 => 1 case W2 => 2 case W4 => 4;
    if forall x: int | addr <= x < addr + n :: MappedByte(m, x) {
      assert MappedByte(m, addr) && MappedByte(m, addr + (n - 1));
    }
  }

  predicate MappedByte(m: Memory, x: int) {
    x < 0x1_0000_0000 && m.lo <= x < m.lo + m.size
  }

  // ---- what an instruction leaves ----

  /** The operand holds the value at the width; every byte elsewhere, EIP, the segments and the mapping are as they were. */
  ghost predicate Wrote(c: Cpu, d: Cpu, o: Operand, w: Width, v: Word) {
    && ReadOperand(d, o, w) == Lo(v, w)
    && d.mem.lo == c.mem.lo && d.mem.size == c.mem.size && d.fsBase == c.fsBase && d.gsBase == c.gsBase
    && (o.Reg? ==> d.mem == c.mem && (forall j: RegIndex :: Apart(o.r, w, j) ==> RegRead(d.regs, j, W1) == RegRead(c.regs, j, W1))
                   && (forall j: RegIndex :: w != W4 || j != o.r ==> d.regs[j] / 0x1_0000 == c.regs[j] / 0x1_0000))
    && (o.Mem? ==> d.regs == c.regs
                   && forall x: Word :: !Touches(EffectiveAddress(c, o.m), w, x) ==> ByteAt(d.mem, x) == ByteAt(c.mem, x))
  }

  /** Nothing but flags and EIP. */
  predicate Untouched(c: Cpu, d: Cpu) {
    d.regs == c.regs && d.mem == c.mem && d.fsBase == c.fsBase && d.gsBase == c.gsBase
  }

  lemma WriteWrote(c: Cpu, o: Operand, w: Width, v: Word)
    requires !o.Imm?
    ensures Wrote(c, WriteOperand(c, o, w, v), o, w, v)
    ensures WriteOperand(c, o, w, v).flags == c.flags && WriteOperand(c, o, w, v).eip == c.eip
  {
    hide RegRead, RegWrite, MemRead, MemWrite, EffectiveAddress, Lo, Touches, Apart, ByteAt;
    match o {
      case Reg(r) =>
        WriteRegReads(c.regs, r, w, v);
        forall j: RegIndex
          ensures Apart(r, w, j) ==> RegRead(RegWrite(c.regs, r, w, v), j, W1) == RegRead(c.regs, j, W1)
          ensures w != W4 || j != r ==> RegWrite(c.regs, r, w, v)[j] / 0x1_0000 == c.regs[j] / 0x1_0000
        {
          WriteRegKeeps(c.regs, r, w, v, j);
        }
      case Mem(m) =>
        SameAddress(c, c.(mem := MemWrite(c.mem, EffectiveAddress(c, m), w, v)), m);
        WriteMemReads(c.mem, EffectiveAddress(c, m), w, v);
        MappingStays(c.mem, EffectiveAddress(c, m), w, v);
        forall x: Word
          ensures !Touches(EffectiveAddress(c, m), w, x) ==> ByteAt(MemWrite(c.mem, EffectiveAddress(c, m), w, v), x) == ByteAt(c.mem, x)
        {
          WriteMemBytes(c.mem, EffectiveAddress(c, m), w, v, x);
        }
      case Imm(_) =>
    }
  }

  lemma SameAddress(c: Cpu, d: Cpu, m: MemRef)
    requires d.regs == c.regs && d.fsBase == c.fsBase && d.gsBase == c.gsBase
    ensures EffectiveAddress(d, m) == EffectiveAddress(c, m)
  {
  }

  lemma MappingStays(m: Memory, addr: Word, w: Width, v: Word)
    ensures MemWrite(m, addr, w, v).lo == m.lo && MemWrite(m, addr, w, v).size == m.size
  {
  }

  /** What is written does not depend on the flags the state carries. */
  lemma WroteDespiteFlags(c: Cpu, f: Tuple, o: Operand, w: Width, v: Word)
    requires !o.Imm?
    ensures Wrote(c, WriteOperand(c.(flags := f), o, w, v), o, w, v)
    ensures WriteOperand(c.(flags := f), o, w, v).flags == f && WriteOperand(c.(flags := f), o, w, v).eip == c.eip
  {
    hide RegRead, RegWrite, MemRead, MemWrite, EffectiveAddress, Lo, Touches, Apart, ByteAt, ReadOperand, WriteOperand;
    WriteWrote(c.(flags := f), o, w, v);
    if o.Mem? { SameAddress(c, c.(flags := f), o.m); }
  }

  /** The width an operation's second operand is read at: CL for the shifts and rotates. */
  function SecondWidth(op: Op, src: Operand, w: Width): Width {
    if src.Reg? && op in {SHL, SHR, SAR, ROL, ROR, RCL, RCR} then W1 else w
  }

  /**
   An ALU instruction whose operands can be read leaves the unit's flags, and
   the unit's result in its destination -- but CMP and TEST leave every
   register and byte as they found them. One that cannot be read leaves all.
   */
  lemma AluLeaves(c: Cpu, op: Op, dst: Operand, src: Operand, w: Width, length: Word)
    requires !dst.Imm?
    ensures var sw := SecondWidth(op, src, w);
      var i := AluInsn(op, dst, src, w);
      if !Readable(c, dst, w) || !Readable(c, src, sw) then Exec(c, i, length) == Fault(c)
      else
        var out := Binary(op, ReadOperand(c, dst, w), ReadOperand(c, src, sw), w, c.flags);
        var d := Exec(c, i, length).c;
        && Exec(c, i, length).Done? && d.flags == out.f && d.eip == (c.eip + length) % 0x1_0000_0000
        && if op == CMP || op == TEST then Untouched(c, d) else Wrote(c, d, dst, w, out.r)
  {
    hide ReadOperand, WriteOperand, Readable, Binary, EffectiveAddress, Wrote, Plus;
    PlusIs(c.eip, length);
    var sw := SecondWidth(op, src, w);
    if Readable(c, dst, w) && Readable(c, src, sw) {
      var out := Binary(op, ReadOperand(c, dst, w), ReadOperand(c, src, sw), w, c.flags);
      WroteDespiteFlags(c, out.f, dst, w, out.r);
      WroteDespiteEip(c, WriteOperand(c.(flags := out.f), dst, w, out.r), dst, w, out.r, Plus(c.eip, length));
    }
  }

  lemma PlusIs(a: Word, b: Word)
    ensures Plus(a, b) == (a + b) % 0x1_0000_0000
  {
  }

  lemma WroteDespiteEip(c: Cpu, d: Cpu, o: Operand, w: Width, v: Word, eip: Word)
    requires Wrote(c, d, o, w, v)
    ensures Wrote(c, d.(eip := eip), o, w, v)
  {
    hide RegRead, MemRead, Lo, Touches, Apart, ByteAt, EffectiveAddress;
    if o.Mem? { SameAddress(d, d.(eip := eip), o.m); }
  }

  lemma UnaryLeaves(c: Cpu, op: UnaryOp, dst: Operand, w: Width, length: Word)
    requires !dst.Imm?
    ensures var i := UnaryInsn(op, dst, w);
      if !Readable(c, dst, w) then Exec(c, i, length) == Fault(c)
      else
        var out := Unary(op, ReadOperand(c, dst, w), w, c.flags);
        var d := Exec(c, i, length).c;
        && Exec(c, i, length).Done? && d.flags == out.f && d.eip == (c.eip + length) % 0x1_0000_0000
        && Wrote(c, d, dst, w, out.r)
  {
    hide ReadOperand, WriteOperand, Readable, Unary, EffectiveAddress, Wrote, Plus;
    PlusIs(c.eip, length);
    if Readable(c, dst, w) {
      var out := Unary(op, ReadOperand(c, dst, w), w, c.flags);
      WroteDespiteFlags(c, out.f, dst, w, out.r);
      WroteDespiteEip(c, WriteOperand(c.(flags := out.f), dst, w, out.r), dst, w, out.r, Plus(c.eip, length));
    }
  }

  /** MOV copies; SETcc writes one byte, 1 or 0; LEA writes the address and reads nothing. None touches a flag. */
  lemma MovesLeave(c: Cpu, i: Insn, length: Word)
    requires (i.Mov? || i.Setcc?) && !i.dst.Imm?
    ensures var w := if i.Mov? then i.w else W1;
      var ready := Readable(c, i.dst, w) && (i.Mov? ==> Readable(c, i.src, w));
      if !ready then Exec(c, i, length) == Fault(c)
      else
        var d := Exec(c, i, length).c;
        && Exec(c, i, length).Done? && d.flags == c.flags && d.eip == (c.eip + length) % 0x1_0000_0000
        && Wrote(c, d, i.dst, w, if i.Mov? then ReadOperand(c, i.src, w) else if Holds(i.cc, c.flags) then 1 else 0)
  {
    hide ReadOperand, WriteOperand, Readable, EffectiveAddress, Holds, Wrote, Plus;
    PlusIs(c.eip, length);
    var w := if i.Mov? then i.w else W1;
    var v := if i.Mov? then ReadOperand(c, i.src, w) else Num(Holds(i.cc, c.flags));
    WriteWrote(c, i.dst, w, v);
    WroteDespiteEip(c, WriteOperand(c, i.dst, w, v), i.dst, w, v, Plus(c.eip, length));
  }

  lemma LeaLeaves(c: Cpu, to: RegIndex, m: MemRef, length: Word)
    ensures var d := Exec(c, Lea(to, m), length).c;
      && Exec(c, Lea(to, m), length).Done? && d.flags == c.flags && d.eip == (c.eip + length) % 0x1_0000_0000 && d.mem == c.mem
      && d.regs == c.regs[to := EffectiveAddress(c, m)]
  {
    hide EffectiveAddress;
  }

  /** Branches and NOP leave everything but EIP: the target when the condition holds, else the next instruction. */
  lemma BranchesLeave(c: Cpu, i: Insn, length: Word)
    requires i.Nop? || i.Jmp? || i.Jcc?
    ensures var next := (c.eip + length) % 0x1_0000_0000;
      var taken := i.Jmp? || (i.Jcc? && Holds(i.cc, c.flags));
      Exec(c, i, length) == Done(c.(eip := if taken then (next + i.rel) % 0x1_0000_0000 else next))
  {
    hide Holds;
  }

  /** LAHF puts the low byte of the flags in AH. */
  lemma LahfLeaves(c: Cpu, length: Word)
    ensures var d := Exec(c, Lahf, length).c;
      && Exec(c, Lahf, length).Done? && d.flags == c.flags && d.mem == c.mem && d.eip == (c.eip + length) % 0x1_0000_0000
      && RegRead(d.regs, 4, W1) == Eflags(c.flags) % 0x100 && RegRead(d.regs, 0, W1) == RegRead(c.regs, 0, W1)
      && d.regs[0] / 0x1_0000 == c.regs[0] / 0x1_0000 && d.regs[1..] == c.regs[1..]
  {
    hide Derive, WordOf, SixOf, RegRead, RegWrite, LahfAx, Plus;
    PlusIs(c.eip, length);
    WordIs(c.flags);
    AhIsTheLowByte(RegRead(c.regs, EAX, W2), Derive(c.flags));
    AxWritten(c.regs, WordOf(Derive(c.flags)) % 0x100);
  }

  lemma WordIs(f: Tuple)
    ensures Eflags(f) == WordOf(Derive(f))
  {
  }

  /** AX written back with a new high byte. */
  lemma AxWritten(regs: Regs, high: Byte)
    ensures var out := RegWrite(regs, EAX, W2, RegRead(regs, EAX, W2) % 0x100 + 0x100 * high);
      && RegRead(out, 4, W1) == high && RegRead(out, 0, W1) == RegRead(regs, 0, W1)
      && out[0] / 0x1_0000 == regs[0] / 0x1_0000 && out[1..] == regs[1..]
  {
    var ax := RegRead(regs, EAX, W2) % 0x100 + 0x100 * high;
    LowHalfOf(regs[0], ax);
    HalfInBytes(regs[0], ax);
    HighByte(regs[0]);
  }

  lemma AhIsTheLowByte(ax: Word, s: Six)
    ensures LahfAx(ax, WordOf(s)) == ax % 0x100 + 0x100 * (WordOf(s) % 0x100)
  {
    WordRoundTrip(s);
    hide SixOf;
    ModUnique(WordOf(s), 0x100, 2 + 8 * Num(s.of),
              2 + Num(s.cf) + 4 * Num(s.pf) + 0x10 * Num(s.af) + 0x40 * Num(s.zf) + 0x80 * Num(s.sf));
  }

  lemma HalfInBytes(v: Word, ax: Word)
    requires ax < 0x1_0000
    ensures var r := v - v % 0x1_0000 + ax; r % 0x100 == ax % 0x100 && r / 0x100 % 0x100 == ax / 0x100
  {
    ModUnique(v - v % 0x1_0000 + ax, 0x100, 0x100 * (v / 0x1_0000) + ax / 0x100, ax % 0x100);
    ModUnique(0x100 * (v / 0x1_0000) + ax / 0x100, 0x100, v / 0x1_0000, ax / 0x100);
  }

  /** SAHF takes five flags from AH and keeps OF. */
  lemma SahfLeaves(c: Cpu, length: Word)
    ensures var d := Exec(c, Sahf, length).c;
      var s := Derive(d.flags);
      var ah := RegRead(c.regs, 4, W1);
      && Exec(c, Sahf, length).Done? && Untouched(c, d) && d.eip == (c.eip + length) % 0x1_0000_0000
      && (s.cf <==> ah % 2 == 1) && (s.pf <==> ah / 4 % 2 == 1) && (s.af <==> ah / 0x10 % 2 == 1)
      && (s.zf <==> ah / 0x40 % 2 == 1) && (s.sf <==> ah / 0x80 % 2 == 1) && s.of == Derive(c.flags).of
  {
    hide WordOf, Derive, SixOf, RegRead;
    AhOf(c.regs);
    var ah := RegRead(c.regs, 4, W1);
    WordRoundTrip(SixOf(ah).(of := Derive(c.flags).of));
    WordRoundTrip(Derive(c.flags));
    ExplicitIs(SixOf(ah).(of := Derive(c.flags).of));
    SixBits(ah);
  }

  lemma AhOf(regs: Regs)
    ensures RegRead(regs, EAX, W2) / 0x100 % 0x100 == RegRead(regs, 4, W1)
  {
    SecondByte(regs[0]);
  }

  lemma ExplicitIs(s: Six)
    ensures Derive(RecordExplicit(WordOf(s))) == s
  {
    hide WordOf, SixOf;
    WordRoundTrip(s);
  }

  lemma SixBits(v: Word)
    ensures var s := SixOf(v);
      && (s.cf <==> v % 2 == 1) && (s.pf <==> v / 4 % 2 == 1) && (s.af <==> v / 0x10 % 2 == 1)
      && (s.zf <==> v / 0x40 % 2 == 1) && (s.sf <==> v / 0x80 % 2 == 1) && (s.of <==> v / 0x800 % 2 == 1)
  {
  }

  lemma SecondByte(v: Word)
    ensures v % 0x1_0000 / 0x100 % 0x100 == v / 0x100 % 0x100
  {
    HighByte(v);
    ModUnique(v % 0x1_0000, 0x100, v / 0x100 % 0x100, v % 0x100) by {
      ModUnique(v, 0x1_0000, v / 0x1_0000, v / 0x100 % 0x100 * 0x100 + v % 0x100);
    }
  }
}
