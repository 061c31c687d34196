/** What each emitted piece does to the machine. */
module EmitterFacts {
  import opened Words
  import opened Flags
  import opened Guest
  import opened A64
  import opened A64Cond
  import opened Emitter

  /** The mapping does not run past the top of guest space: where the one-compare bounds check is exact. */
  predicate Mapped(m: Memory) {
    m.lo + m.size <= 0x1_0000_0000
  }

  /** Equal but for EA and the address scratch. */
  predicate SameButAddress(h: Host, g: Host) {
    && g.c == h.c && g.p == h.p && g.status == h.status
    && g.x.x0 == h.x.x0 && g.x.x1 == h.x.x1 && g.x.x2 == h.x.x2 && g.x.carry == h.x.carry
  }

  predicate Prepared(h: Host, o: Operand) {
    o.Mem? ==> h.x.ea == EffectiveAddress(h.c, o.m)
  }

  /** Left with EIP at the instruction and nothing else changed. */
  predicate FaultedAt(h: Host, g: Host, pc: Word) {
    g.status == Faulted && g.c == h.c.(eip := pc)
  }

  // ---- single operations ----

  lemma RunAluImm(alu: HostAlu, d: XReg, a: XReg, imm: Word, next: Code, h: Host, k: Clobber)
    requires h.status == Running
    ensures Run(Emit(AluImm(alu, d, a, imm), next), h, k)
         == Run(next, h.(x := Set(h.x, d, HostResult(alu, Get(h.x, a), imm))), k)
  {
    hide HostResult, Get, Set;
  }

  lemma RunAluReg(alu: HostAlu, d: XReg, a: XReg, b: XReg, next: Code, h: Host, k: Clobber)
    requires h.status == Running
    ensures Run(Emit(AluReg(alu, d, a, b), next), h, k)
         == Run(next, h.(x := Set(h.x, d, HostResult(alu, Get(h.x, a), Get(h.x, b)))), k)
  {
    hide HostResult, Get, Set;
  }

  lemma RunMovImm(d: XReg, imm: Word, next: Code, h: Host, k: Clobber)
    requires h.status == Running
    ensures Run(Emit(MovImm(d, imm), next), h, k) == Run(next, h.(x := Set(h.x, d, imm)), k)
  {
    hide HostResult, Get, Set;
  }

  lemma RunMovReg(d: XReg, s: XReg, next: Code, h: Host, k: Clobber)
    requires h.status == Running
    ensures Run(Emit(MovReg(d, s), next), h, k) == Run(next, h.(x := Set(h.x, d, Get(h.x, s))), k)
  {
    hide HostResult, Get, Set;
  }

  // ---- addresses ----

  lemma PlusZero(a: Word)
    ensures Plus(a, 0) == a && Plus(0, a) == a
  {
  }

  lemma PlusCommutes(a: Word, b: Word, c: Word)
    ensures Plus(a, b) == Plus(b, a)
    ensures Plus(Plus(a, b), c) == Plus(Plus(b, c), a)
  {
    SumOfThree(a, b, c);
    SumOfThree(b, c, a);
  }

  lemma SumOfThree(a: Word, b: Word, c: Word)
    ensures Plus(Plus(a, b), c) == (a + b + c) % 0x1_0000_0000
  {
    var m := 0x1_0000_0000;
    var q, s := (a + b) / m, (a + b) % m;
    ModUnique(a + b + c, m, q + (s + c) / m, (s + c) % m);
  }

  lemma HostShiftScales(v: Word, log: Log)
    ensures HostResult(LSLW, v, log) == Scaled(v, log)
    ensures Scaled(v, 0) == v
    ensures HostResult(ADDW, v, log) == Plus(v, log)
  {
    assert log % 32 == log;
  }

  /** What LEA computes: the effective address without its segment base. */
  function Offset(c: Cpu, m: MemRef): Word {
    Plus(Plus(m.disp, BaseValue(c.regs, m.base)), IndexValue(c.regs, m.index))
  }

  lemma RunDisp(m: MemRef, partial: Word, next: Code, h: Host, k: Clobber) returns (g: Host)
    requires h.status == Running && h.x.ea == partial
    ensures Run(if m.disp != 0 then Emit(AluImm(ADDW, EA, EA, m.disp), next) else next, h, k) == Run(next, g, k)
    ensures SameButAddress(h, g) && g.x.ea == Plus(partial, m.disp)
  {
    hide Run;
    if m.disp != 0 {
      g := h.(x := Set(h.x, EA, Plus(partial, m.disp)));
      RunEmit(AluImm(ADDW, EA, EA, m.disp), next, h, k);
    } else {
      g := h;
      PlusZero(partial);
    }
  }

  lemma RunAddressParts(m: MemRef, next: Code, h: Host, k: Clobber) returns (g: Host)
    requires h.status == Running
    ensures Run(AddressParts(m, next), h, k) == Run(next, g, k)
    ensures SameButAddress(h, g) && g.x.ea == Offset(h.c, m)
  {
    hide Run, Plus, Scaled, RegRead, HostResult;
    var disp := if m.disp != 0 then Emit(AluImm(ADDW, EA, EA, m.disp), next) else next;
    var bv, iv := BaseValue(h.c.regs, m.base), IndexValue(h.c.regs, m.index);
    PlusCommutes(m.disp, bv, iv);
    PlusCommutes(m.disp, iv, 0);
    PlusCommutes(bv, m.disp, 0);
    PlusZero(bv);
    PlusZero(m.disp);
    PlusZero(Plus(m.disp, bv));
    PlusZero(iv);
    match (m.base, m.index) {
      case (Base(b), Index(r, low, shift)) =>
        var raw := RegRead(h.c.regs, r, if low then W1 else W4);
        var h1 := h.(x := Set(h.x, EA, bv));
        var h2 := h1.(x := Set(h1.x, TMP, raw));
        var h3 := h2.(x := Set(h2.x, EA, Plus(bv, Scaled(raw, shift))));
        RunEmit(LoadReg(EA, b, W4), Emit(LoadReg(TMP, r, if low then W1 else W4), Emit(AddLsl(EA, EA, TMP, shift), disp)), h, k);
        RunEmit(LoadReg(TMP, r, if low then W1 else W4), Emit(AddLsl(EA, EA, TMP, shift), disp), h1, k);
        RunEmit(AddLsl(EA, EA, TMP, shift), disp, h2, k);
        g := RunDisp(m, Plus(bv, iv), next, h3, k);
      case (Base(b), NoIndex) =>
        var h1 := h.(x := Set(h.x, EA, bv));
        RunEmit(LoadReg(EA, b, W4), disp, h, k);
        g := RunDisp(m, bv, next, h1, k);
      case (NoBase, Index(r, low, shift)) =>
        var raw := RegRead(h.c.regs, r, if low then W1 else W4);
        var h1 := h.(x := Set(h.x, EA, raw));
        HostShiftScales(raw, shift);
        if shift != 0 {
          var h2 := h1.(x := Set(h1.x, EA, iv));
          RunEmit(LoadReg(EA, r, if low then W1 else W4), Emit(AluImm(LSLW, EA, EA, shift), disp), h, k);
          RunEmit(AluImm(LSLW, EA, EA, shift), disp, h1, k);
          g := RunDisp(m, iv, next, h2, k);
        } else {
          RunEmit(LoadReg(EA, r, if low then W1 else W4), disp, h, k);
          g := RunDisp(m, iv, next, h1, k);
        }
      case (NoBase, NoIndex) =>
        g := h.(x := Set(h.x, EA, m.disp));
        RunEmit(MovImm(EA, m.disp), next, h, k);
    }
  }

  /** The address the emitted code forms is the interpreter's, segment base included. */
  lemma RunAddress(m: MemRef, next: Code, h: Host, k: Clobber) returns (g: Host)
    requires h.status == Running
    ensures Run(Address(m, next), h, k) == Run(next, g, k)
    ensures SameButAddress(h, g) && g.x.ea == EffectiveAddress(h.c, m)
  {
    hide Run, Plus, AddressParts, BaseValue, IndexValue;
    if m.seg == Flat {
      g := RunAddressParts(m, next, h, k);
      PlusZero(Offset(h.c, m));
    } else {
      var add := Emit(AluReg(ADDW, EA, EA, X8), next);
      var h1 := RunAddressParts(m, Emit(LoadSegment(X8, m.seg), add), h, k);
      var h2 := h1.(x := Set(h1.x, X8, SegmentBase(h.c, m.seg)));
      g := h2.(x := Set(h2.x, EA, EffectiveAddress(h.c, m)));
      RunEmit(LoadSegment(X8, m.seg), add, h1, k);
      RunEmit(AluReg(ADDW, EA, EA, X8), next, h2, k);
      HostAdds(Offset(h.c, m), SegmentBase(h.c, m.seg));
    }
  }

  lemma HostAdds(a: Word, b: Word)
    ensures HostResult(ADDW, a, b) == Plus(a, b)
  {
  }

  // ---- checked accesses ----

  lemma BoundsAgree(m: Memory, addr: Word, w: Width)
    requires Mapped(m)
    ensures BoundsPass(m.lo, m.size, addr, Bytes(w)) <==> InRange(m, addr, w)
  {
  }

  /** Prepared on a checked address, or faulted exactly where the interpreter faults. */
  lemma RunPrepare(o: Operand, w: Width, pc: Word, next: Code, h: Host, k: Clobber) returns (g: Host)
    requires h.status == Running && Mapped(h.c.mem)
    ensures Readable(h.c, o, w) ==> Run(PrepareIfMemory(o, w, pc, next), h, k) == Run(next, g, k)
    ensures Readable(h.c, o, w) ==> SameButAddress(h, g) && Prepared(g, o)
    ensures Readable(h.c, o, w) && !o.Mem? ==> g == h
    ensures !Readable(h.c, o, w) ==> FaultedAt(h, Run(PrepareIfMemory(o, w, pc, next), h, k), pc)
  {
    hide Run, Address, EffectiveAddress, InRange, BoundsPass, Mapped;
    g := h;
    if o.Mem? {
      g := RunAddress(o.m, Emit(CheckBounds(w, pc), next), h, k);
      BoundsAgree(h.c.mem, g.x.ea, w);
      RunEmit(CheckBounds(w, pc), next, g, k);
      RunLeft(next, Do(CheckBounds(w, pc), g, k), k);
    }
  }

  lemma RunLeft(code: Code, h: Host, k: Clobber)
    ensures h.status != Running ==> Run(code, h, k) == h
  {
  }

  // ---- operands ----

  lemma NarrowReads(regs: Regs, r: RegIndex, m: Memory, addr: Word, w: Width)
    ensures Lo(RegRead(regs, r, w), w) == RegRead(regs, r, w)
    ensures Lo(MemRead(m, addr, w), w) == MemRead(m, addr, w)
  {
    hide Lo, Fits, RegRead, MemRead;
    ReadsFit(regs, r, m, addr, w);
    LoOfFits(RegRead(regs, r, w), w);
    LoOfFits(MemRead(m, addr, w), w);
  }

  lemma ReadsFit(regs: Regs, r: RegIndex, m: Memory, addr: Word, w: Width)
    ensures Fits(RegRead(regs, r, w), w) && Fits(MemRead(m, addr, w), w)
  {
    hide ByteAt;
  }

  /** The register takes the operand masked to the width. */
  lemma RunLoad(d: XReg, o: Operand, w: Width, next: Code, h: Host, k: Clobber) returns (g: Host)
    requires h.status == Running && Prepared(h, o)
    ensures Run(LoadPrepared(d, o, w, next), h, k) == Run(next, g, k)
    ensures g == h.(x := Set(h.x, d, Lo(ReadOperand(h.c, o, w), w)))
  {
    hide Run, EffectiveAddress, RegRead, MemRead, Lo, Set;
    g := h.(x := Set(h.x, d, Lo(ReadOperand(h.c, o, w), w)));
    match o {
      case Reg(r) =>
        NarrowReads(h.c.regs, r, h.c.mem, 0, w);
        RunEmit(LoadReg(d, r, w), next, h, k);
      case Imm(v) =>
        RunEmit(MovImm(d, Lo(v, w)), next, h, k);
      case Mem(m) =>
        NarrowReads(h.c.regs, 0, h.c.mem, h.x.ea, w);
        RunEmit(LoadMem(d, w), next, h, k);
    }
  }

  lemma RunStore(o: Operand, w: Width, s: XReg, h: Host, k: Clobber)
    requires h.status == Running && Prepared(h, o)
    ensures Run(StorePrepared(o, w, s), h, k) == h.(c := WriteOperand(h.c, o, w, Get(h.x, s)))
  {
    hide Run, EffectiveAddress, RegWrite, MemWrite, Get;
    match o {
      case Reg(r) =>
        RunEmit(StoreReg(r, w, s), Nil, h, k);
        RunNil(Do(StoreReg(r, w, s), h, k), k);
      case Imm(_) => RunNil(h, k);
      case Mem(m) =>
        RunEmit(StoreMem(w, s), Nil, h, k);
        RunNil(Do(StoreMem(w, s), h, k), k);
    }
  }

  /** The tuple recorded from registers; `carryIn` is left as it was. */
  lemma RunRecord(a: XReg, b: XReg, r: XReg, kind: Kind, w: Width, next: Code, h: Host, k: Clobber) returns (g: Host)
    requires h.status == Running
    ensures Run(RecordFlags(a, b, r, kind, w, next), h, k) == Run(next, g, k)
    ensures g == h.(c := h.c.(flags := Tuple(kind, Get(h.x, a), Get(h.x, b), Get(h.x, r), w, h.c.flags.carryIn)))
  {
    hide Run, Get;
    var h1 := Do(StorePair(a, b), h, k);
    var h2 := Do(StoreResult(r), h1, k);
    g := Do(StoreKind(kind, w), h2, k);
    RunEmit(StorePair(a, b), Emit(StoreResult(r), Emit(StoreKind(kind, w), next)), h, k);
    RunEmit(StoreResult(r), Emit(StoreKind(kind, w), next), h1, k);
    RunEmit(StoreKind(kind, w), next, h2, k);
  }

  lemma MaskIsLo(v: Word, w: Width)
    ensures HostResult(ANDW, v, Lo(-1, w)) == Lo(v, w)
  {
    Pow2Values();
    match w {
      case W1 => AndOnes(v, 8, 32);
      case W2 => AndOnes(v, 16, 32);
      case W4 => AndOnes(v, 32, 32);
    }
  }

  lemma RunMask(d: XReg, w: Width, next: Code, h: Host, k: Clobber) returns (g: Host)
    requires h.status == Running
    ensures Run(MaskTo(d, w, next), h, k) == Run(next, g, k)
    ensures g == h.(x := Set(h.x, d, Lo(Get(h.x, d), w)))
  {
    hide Run, Set, Get, HostResult, Lo;
    MaskIsLo(Get(h.x, d), w);
    g := h.(x := Set(h.x, d, Lo(Get(h.x, d), w)));
    if w == W4 {
      LoWhole(Get(h.x, d));
      SetSame(h.x, d);
    } else {
      RunEmit(AluImm(ANDW, d, d, Lo(-1, w)), next, h, k);
    }
  }

  lemma LoWhole(v: Word)
    ensures Lo(v, W4) == v
  {
  }
}
