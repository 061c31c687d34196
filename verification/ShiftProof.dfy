/** The emitted shifts do what the interpreter does, at every width and count. */
module ShiftProof {
  import opened Words
  import opened Flags
  import opened Alu
  import opened Shifts
  import opened Guest
  import opened A64
  import opened A64Cond
  import opened Emitter
  import opened EmitterFacts
  import opened EmitterProof

  /** X2 before the shift itself: sign-extended for a narrow SAR. */
  function ShiftInput(op: Op, a: Word, w: Width): Word {
    if op == SAR && w != W4 then HostResult(ASRW, Align(a, w), AlignShift(w)) else a
  }

  function ShiftOutput(op: Op, a: Word, count: Word, w: Width): Word
    requires IsShiftOp(op)
  {
    var v := HostResult(HostShift(op), ShiftInput(op, a, w), count);
    if op == SHR then v else Lo(v, w)
  }

  lemma SignedOf(s: int)
    requires -0x8000_0000 <= s < 0x8000_0000
    ensures Signed(Lo32(s), W4) == s
  {
    hide Signed;
    LoNear(s, W4);
    SignedFits(Lo32(s), W4);
  }

  lemma SignedRange(a: Word, w: Width)
    requires Fits(a, w)
    ensures -0x8000_0000 <= Signed(a, w) < 0x8000_0000
  {
    hide Signed;
    SignedFits(a, w);
  }

  lemma QuotOfUp(s: int, w: Width)
    ensures Quot(Up(s, w), AlignShift(w)) == s
  {
    hide Pow2;
    AlignPow2();
  }

  lemma HostAsr(v: Word, count: Word)
    requires count <= 31
    ensures HostResult(ASRW, v, count) == Lo32(Quot(Signed(v, W4), count))
  {
    hide Signed, Pow2;
  }

  /** Shifting left to the top and arithmetically back sign-extends. */
  lemma InputIsSigned(a: Word, w: Width)
    requires Fits(a, w)
    ensures Signed(ShiftInput(SAR, a, w), W4) == Signed(a, w)
  {
    hide Signed, Quot, Up, Align, Lo32;
    if w != W4 {
      AlignIsUp(a, w);
      SignedUp(a, w);
      HostAsr(Align(a, w), AlignShift(w));
      QuotOfUp(Signed(a, w), w);
      SignedRange(a, w);
      SignedOf(Signed(a, w));
    }
  }

  lemma HostLeft(a: Word, count: Word)
    requires count <= 31
    ensures HostResult(LSLW, a, count) == Lo32(a * Pow2(count))
    ensures HostResult(LSRW, a, count) == Words.Shr(a, count)
  {
    hide Pow2;
  }

  /** The host shift gives the guest's result, for every count from 1 to 31. */
  lemma HostMatchesShift(op: Op, a: Word, count: Word, w: Width)
    requires IsShiftOp(op) && Fits(a, w) && IsCount(count)
    ensures ShiftOutput(op, a, count, w) == ShiftResult(op, a, count, w)
  {
    hide Lo, Lo32, Quot, ShiftResult, Words.Shr, Pow2, Signed, HostResult;
    HostLeft(a, count);
    match op {
      case SHL =>
        ShlMeaning(a, count, w);
        LoLo32(a * Pow2(count), w);
      case SHR =>
        ShrMeaning(a, count, w);
      case SAR =>
        SarMeaning(a, count, w);
        InputIsSigned(a, w);
        HostAsr(ShiftInput(SAR, a, w), count);
        LoLo32(Quot(Signed(a, w), count), w);
    }
  }

  // ---- the emitted sequence ----

  /** The state after a shift of `a` by a nonzero count, with the tuple recorded unless dead. */
  function AfterShift(c: Cpu, op: Op, dst: Operand, a: Word, count: Word, w: Width, dead: bool): Cpu
    requires IsShiftOp(op)
  {
    var r := ShiftResult(op, a, count, w);
    WriteOperand(c.(flags := if dead then c.flags else Tuple(ShiftKind(op), a, count, r, w, c.flags.carryIn)), dst, w, r)
  }

  function ShiftFinish(op: Op, dst: Operand, w: Width, dead: bool): Code
    requires IsShiftOp(op)
  {
    var store := StorePrepared(dst, w, X2);
    if dead then store else RecordFlags(X0, X1, X2, ShiftKind(op), w, store)
  }

  lemma RunShiftFinish(op: Op, dst: Operand, w: Width, dead: bool, h: Host, k: Clobber)
    requires h.status == Running && IsShiftOp(op) && Prepared(h, dst)
    requires h.x.x2 == ShiftResult(op, h.x.x0, h.x.x1, w)
    ensures var g := Run(ShiftFinish(op, dst, w, dead), h, k);
      g == h.(c := AfterShift(h.c, op, dst, h.x.x0, h.x.x1, w, dead))
  {
    hide Run, RecordFlags, StorePrepared, WriteOperand, EffectiveAddress, ShiftResult, IsShiftOp;
    var h1 := h;
    if !dead {
      h1 := RunRecord(X0, X1, X2, ShiftKind(op), w, StorePrepared(dst, w, X2), h, k);
    }
    AddressIgnoresFlags(h.c, h1.c, dst);
    RunStore(dst, w, X2, h1, k);
  }

  function ShiftMasked(op: Op, dst: Operand, w: Width, dead: bool): Code
    requires IsShiftOp(op)
  {
    Emit(AluReg(HostShift(op), X2, X2, X1),
         if op == SHR then ShiftFinish(op, dst, w, dead) else MaskTo(X2, w, ShiftFinish(op, dst, w, dead)))
  }

  lemma RunShiftMasked(op: Op, dst: Operand, w: Width, dead: bool, h: Host, k: Clobber)
    requires h.status == Running && IsShiftOp(op) && Prepared(h, dst)
    requires Fits(h.x.x0, w) && IsCount(h.x.x1) && h.x.x2 == ShiftInput(op, h.x.x0, w)
    ensures var g := Run(ShiftMasked(op, dst, w, dead), h, k);
      && g.status == Running && g.c == AfterShift(h.c, op, dst, h.x.x0, h.x.x1, w, dead)
      && g.x.x0 == h.x.x0 && g.x.x1 == h.x.x1 && g.x.x2 == ShiftResult(op, h.x.x0, h.x.x1, w)
  {
    hide Run, Lo, HostResult, ShiftInput, ShiftResult, AfterShift, ShiftFinish, Prepared, MaskTo, Fits, IsCount, HostShift;
    HostMatchesShift(op, h.x.x0, h.x.x1, w);
    var finish := ShiftFinish(op, dst, w, dead);
    var v := HostResult(HostShift(op), h.x.x2, h.x.x1);
    var h1 := h.(x := Set(h.x, X2, v));
    RunAluReg(HostShift(op), X2, X2, X1, if op == SHR then finish else MaskTo(X2, w, finish), h, k);
    var h2 := h1;
    if op != SHR {
      h2 := RunMask(X2, w, finish, h1, k);
    }
    PreparedKept(h, X2, h2.x.x2, dst);
    RunShiftFinish(op, dst, w, dead, h2, k);
  }

  lemma RunShiftBody(op: Op, dst: Operand, w: Width, dead: bool, h: Host, k: Clobber)
    requires h.status == Running && IsShiftOp(op) && Prepared(h, dst)
    requires Fits(h.x.x0, w) && IsCount(h.x.x1)
    ensures var g := Run(ShiftBody(op, dst, w, dead), h, k);
      && g.status == Running && g.c == AfterShift(h.c, op, dst, h.x.x0, h.x.x1, w, dead)
      && g.x.x0 == h.x.x0 && g.x.x1 == h.x.x1 && g.x.x2 == ShiftResult(op, h.x.x0, h.x.x1, w)
  {
    hide Run, Lo, HostResult, ShiftResult, AfterShift, Prepared, MaskTo, Fits, IsCount, HostShift, RecordFlags, StorePrepared;
    var masked := ShiftMasked(op, dst, w, dead);
    var h1 := h.(x := Set(h.x, X2, h.x.x0));
    PreparedKept(h, X2, h.x.x0, dst);
    if op == SAR && w != W4 {
      var sh := AlignShift(w);
      var asr := Emit(AluImm(ASRW, X2, X2, sh), masked);
      RunMovReg(X2, X0, Emit(AluImm(LSLW, X2, X2, sh), asr), h, k);
      RunAluImm(LSLW, X2, X2, sh, asr, h1, k);
      var h2 := h1.(x := Set(h1.x, X2, Align(h.x.x0, w)));
      RunAluImm(ASRW, X2, X2, sh, masked, h2, k);
      PreparedKept(h, X2, ShiftInput(op, h.x.x0, w), dst);
      RunShiftMasked(op, dst, w, dead, h.(x := Set(h.x, X2, ShiftInput(op, h.x.x0, w))), k);
    } else {
      RunMovReg(X2, X0, masked, h, k);
      RunShiftMasked(op, dst, w, dead, h1, k);
    }
  }

  // ---- against the interpreter ----

  lemma CountOfLow(v: Word, w: Width)
    ensures Count(Lo(v, w)) == Count(v)
  {
    match w {
      case W1 => assert v == 0x100 * (v / 0x100) + Lo(v, w); ModUnique(Lo(v, w), 32, v / 32 - 8 * (v / 0x100), v % 32);
      case W2 => assert v == 0x1_0000 * (v / 0x1_0000) + Lo(v, w); ModUnique(Lo(v, w), 32, v / 32 - 0x800 * (v / 0x1_0000), v % 32);
      case W4 =>
    }
  }

  /** The count the interpreter shifts by: CL or the immediate, five bits of it. */
  function CountOf(c: Cpu, src: Operand): Word {
    Count(match src case Reg(r) => RegRead(c.regs, r, W1) case Imm(v) => v case Mem(_) => 0)
  }

  lemma ExecShift(c: Cpu, op: Op, dst: Operand, src: Operand, w: Width, dead: bool)
    requires IsShiftOp(op) && CountShape(src) && Readable(c, dst, w) && CountOf(c, src) != 0
    ensures var a := Lo(ReadOperand(c, dst, w), w);
      var out := ExecAlu(c, op, dst, src, w);
      && out.Done? && WithFlags(out.c, dead, c.flags) == AfterShift(c, op, dst, a, CountOf(c, src), w, dead)
      && out.c.flags.a == a && out.c.flags.b == CountOf(c, src)
      && out.c.flags.r == ShiftResult(op, a, CountOf(c, src), w)
  {
    hide Lo, ShiftResult, Cf, WriteOperand, RegRead, MemRead, Count, EffectiveAddress, InRange;
    var a, count := Lo(ReadOperand(c, dst, w), w), CountOf(c, src);
    CountOfLow(ReadOperand(c, src, SourceWidth(op, src, w)), w);
    var r := ShiftResult(op, a, count, w);
    WriteIgnoresFlags(c, c.flags, dst, w, r);
    WriteIgnoresFlags(c, Record(c.flags, ShiftKind(op), a, count, r, w), dst, w, r);
    WriteIgnoresFlags(c, Tuple(ShiftKind(op), a, count, r, w, c.flags.carryIn), dst, w, r);
  }

  lemma RewriteOperand(c: Cpu, o: Operand, w: Width)
    requires WriteShape(o)
    ensures WriteOperand(c, o, w, Lo(ReadOperand(c, o, w), w)) == c
  {
    hide RegRead, RegWrite, MemRead, MemWrite, EffectiveAddress, Lo;
    match o {
      case Reg(r) => RewriteReg(c.regs, r, w); NarrowReads(c.regs, r, c.mem, 0, w);
      case Mem(m) =>
        RewriteMem(c.mem, EffectiveAddress(c, m), w);
        NarrowReads(c.regs, 0, c.mem, EffectiveAddress(c, m), w);
    }
  }

  /** A shift by zero writes back what it read and leaves the flags alone. */
  lemma ExecShiftZero(c: Cpu, op: Op, dst: Operand, src: Operand, w: Width)
    requires IsShiftOp(op) && CountShape(src) && WriteShape(dst) && Readable(c, dst, w) && CountOf(c, src) == 0
    ensures ExecAlu(c, op, dst, src, w) == Done(c)
  {
    hide Lo, ShiftResult, Cf, WriteOperand, RegRead, MemRead, Count, EffectiveAddress, InRange;
    CountOfLow(ReadOperand(c, src, SourceWidth(op, src, w)), w);
    RewriteOperand(c, dst, w);
  }

  function ShiftHeld(src: Operand): FlagRegs {
    if src.Imm? && Count(src.v) != 0 then FlagRegs(In(X0), In(X1), In(X2)) else NOWHERE
  }

  lemma RunShiftImm(op: Op, dst: Operand, src: Operand, w: Width, dead: bool, pc: Word, h: Host, h1: Host, k: Clobber)
    requires h.status == Running && IsShiftOp(op) && WriteShape(dst) && src.Imm? && Count(src.v) != 0
    requires SameButAddress(h, h1) && Prepared(h1, dst) && Readable(h.c, dst, w)
    ensures Agrees(ExecAlu(h.c, op, dst, src, w),
                   Run(LoadPrepared(X0, dst, w, Emit(MovImm(X1, Count(src.v)), ShiftBody(op, dst, w, dead))), h1, k),
                   h, dead, ShiftHeld(src), pc)
  {
    hide Run, Lo, EffectiveAddress, ShiftBody, ShiftResult, LoadPrepared, ReadOperand, Prepared, Readable, AfterShift,
      ExecAlu, WithFlags, Do, IsShiftOp, Fits;
    var body := ShiftBody(op, dst, w, dead);
    var h2 := RunLoad(X0, dst, w, Emit(MovImm(X1, Count(src.v)), body), h1, k);
    PreparedKept(h1, X0, h2.x.x0, dst);
    LoFits(ReadOperand(h1.c, dst, w), w);
    var h3 := h2.(x := Set(h2.x, X1, Count(src.v)));
    PreparedKept(h2, X1, Count(src.v), dst);
    RunMovImm(X1, Count(src.v), body, h2, k);
    RunShiftBody(op, dst, w, dead, h3, k);
    ExecShift(h.c, op, dst, src, w, dead);
  }

  lemma MaskFive(v: Word)
    ensures HostResult(ANDW, v, 0x1F) == Count(v)
  {
    assert Pow2(5) == 0x20;
    AndOnes(v, 5, 32);
  }

  lemma RunShiftCl(op: Op, dst: Operand, src: Operand, w: Width, dead: bool, pc: Word, h: Host, h1: Host, k: Clobber)
    requires h.status == Running && IsShiftOp(op) && WriteShape(dst) && src == Reg(ECX)
    requires SameButAddress(h, h1) && Prepared(h1, dst) && Readable(h.c, dst, w)
    ensures Agrees(ExecAlu(h.c, op, dst, src, w),
                   Run(LoadPrepared(X0, dst, w, Emit(LoadReg(X1, ECX, W1), Emit(AluImm(ANDW, X1, X1, 0x1F),
                     SkipIfZero(X1, ShiftBody(op, dst, w, dead), Nil)))), h1, k),
                   h, dead, NOWHERE, pc)
  {
    hide Run, Lo, EffectiveAddress, ShiftBody, ShiftResult, LoadPrepared, ReadOperand, Prepared, Readable, AfterShift,
      ExecAlu, IsShiftOp, Fits, RegRead, HostResult, WithFlags, Count;
    var body := ShiftBody(op, dst, w, dead);
    var skip := SkipIfZero(X1, body, Nil);
    var h2 := RunLoad(X0, dst, w, Emit(LoadReg(X1, ECX, W1), Emit(AluImm(ANDW, X1, X1, 0x1F), skip)), h1, k);
    LoFits(ReadOperand(h1.c, dst, w), w);
    var cl := RegRead(h.c.regs, ECX, W1);
    var h3 := h2.(x := Set(h2.x, X1, cl));
    RunEmit(LoadReg(X1, ECX, W1), Emit(AluImm(ANDW, X1, X1, 0x1F), skip), h2, k);
    RunAluImm(ANDW, X1, X1, 0x1F, skip, h3, k);
    MaskFive(cl);
    var h4 := h3.(x := Set(h3.x, X1, Count(cl)));
    PreparedKept(h1, X0, h2.x.x0, dst);
    PreparedKept(h2, X1, Count(cl), dst);
    RunSkip(X1, body, h4, k);
    if Count(cl) == 0 {
      ExecShiftZero(h.c, op, dst, src, w);
      WithSameFlags(h.c, dead);
    } else {
      RunShiftBody(op, dst, w, dead, h4, k);
      ExecShift(h.c, op, dst, src, w, dead);
    }
  }

  lemma WithSameFlags(c: Cpu, dead: bool)
    ensures WithFlags(c, dead, c.flags) == c
  {
  }

  lemma RunSkip(r: XReg, body: Code, h: Host, k: Clobber)
    requires h.status == Running
    ensures Run(SkipIfZero(r, body, Nil), h, k) == if Get(h.x, r) == 0 then h else Run(body, h, k)
  {
    RunNil(if Get(h.x, r) == 0 then h else Run(body, h, k), k);
    RunLeft(Nil, Run(body, h, k), k);
  }

  lemma ExecShiftFaults(c: Cpu, op: Op, dst: Operand, src: Operand, w: Width)
    requires !Readable(c, dst, w)
    ensures ExecAlu(c, op, dst, src, w) == Fault(c)
  {
  }

  /** Every translated shift agrees with the interpreter. */
  lemma RunShift(op: Op, dst: Operand, src: Operand, w: Width, dead: bool, pc: Word, h: Host, k: Clobber)
    requires h.status == Running && Mapped(h.c.mem) && IsShiftOp(op) && WriteShape(dst) && CountShape(src)
    ensures Agrees(ExecAlu(h.c, op, dst, src, w), Run(ShiftCode(op, dst, src, w, dead, pc), h, k), h, dead, ShiftHeld(src), pc)
  {
    hide Run, Lo, EffectiveAddress, ShiftBody, LoadPrepared, Prepared, Readable, WithFlags,
      ExecAlu, IsShiftOp, WriteShape, PrepareIfMemory, Mapped, Agrees, Count;
    var code := match src
      case Imm(v) =>
        if Count(v) == 0 then Nil
        else LoadPrepared(X0, dst, w, Emit(MovImm(X1, Count(v)), ShiftBody(op, dst, w, dead)))
      case Reg(r) =>
        LoadPrepared(X0, dst, w, Emit(LoadReg(X1, r, W1), Emit(AluImm(ANDW, X1, X1, 0x1F),
          SkipIfZero(X1, ShiftBody(op, dst, w, dead), Nil))))
      case Mem(_) => Nil;
    var h1 := RunPrepare(dst, w, pc, code, h, k);
    if !Readable(h.c, dst, w) {
      ExecShiftFaults(h.c, op, dst, src, w);
      FaultAgrees(h.c, Run(ShiftCode(op, dst, src, w, dead, pc), h, k), h, dead, ShiftHeld(src), pc);
    } else if src.Reg? {
      RunShiftCl(op, dst, src, w, dead, pc, h, h1, k);
    } else if Count(src.v) != 0 {
      RunShiftImm(op, dst, src, w, dead, pc, h, h1, k);
    } else {
      ExecShiftZero(h.c, op, dst, src, w);
      RunNil(h1, k);
      NothingAgrees(h, h1, dead, pc);
    }
  }

  lemma NothingAgrees(h: Host, g: Host, dead: bool, pc: Word)
    requires g.c == h.c && g.status == Running
    ensures Agrees(Done(h.c), g, h, dead, NOWHERE, pc)
  {
  }
}
