/** One theorem for every translated instruction, and the translator's tracking kept by each. */
module InsnProof {
  import opened Words
  import opened Flags
  import opened Alu
  import opened Guest
  import opened A64
  import opened A64Cond
  import opened Emitter
  import opened EmitterFacts
  import opened EmitterProof
  import opened ShiftProof
  import opened UnaryProof
  import opened MoveProof

  /** Not one of the block terminators. */
  predicate StraightLine(i: Insn) {
    !i.Jmp? && !i.Jcc?
  }

  /** The flag store is left out. */
  predicate Elided(i: Insn, dead: bool) {
    dead && match i
      case AluInsn(op, _, _, _) => IsPlain(op) || IsShiftOp(op)
      case UnaryInsn(op, _, _) => op != NOT
      case _ => false
  }

  /** LEA through a segment with a nonzero base is the one instruction the two engines disagree on. */
  predicate LeaFlat(c: Cpu, i: Insn) {
    i.Lea? ==> SegmentBase(c, i.m.seg) == 0
  }

  lemma RunAlu(op: Op, dst: Operand, src: Operand, w: Width, dead: bool, pc: Word, h: Host, k: Clobber)
    requires h.status == Running && Mapped(h.c.mem) && IsBit(h.c.flags.carryIn) && Emittable(AluInsn(op, dst, src, w))
    ensures var i := AluInsn(op, dst, src, w);
      Follows(ExecAlu(h.c, op, dst, src, w), Run(AluCode(op, dst, src, w, dead, pc), h, k), h, Elided(i, dead), HeldAfter(i, dead), pc)
  {
    hide Run, PlainCode, ShiftCode, HelperCode, Agrees, ExecAlu, Mapped, Count;
    var i := AluInsn(op, dst, src, w);
    var out := ExecAlu(h.c, op, dst, src, w);
    var g := Run(AluCode(op, dst, src, w, dead, pc), h, k);
    if IsPlain(op) {
      RunPlain(op, dst, src, w, dead, pc, h, k);
      PlainKindDead(h.c, op, dst, src, w);
      AgreesFollows(out, g, h, dead, FlagRegs(In(X0), In(X1), In(X2)), pc);
    } else if IsShiftOp(op) {
      RunShift(op, dst, src, w, dead, pc, h, k);
      ShiftKindDead(h.c, op, dst, src, w);
      AgreesFollows(out, g, h, dead, ShiftHeld(src), pc);
    } else {
      RunHelper(op, dst, src, w, pc, h, k);
    }
  }

  lemma PlainKindDead(c: Cpu, op: Op, dst: Operand, src: Operand, w: Width)
    requires IsPlain(op)
    ensures var out := ExecAlu(c, op, dst, src, w);
      out.Done? ==> out.c.flags.kind == PlainKind(op) && out.c.flags.w == w && WellFormed(out.c.flags)
  {
    hide Readable, ReadOperand, WriteOperand, Cf, Lo, PlainResult, WellFormed, Discards;
    var sw := SourceWidth(op, src, w);
    var a, b := ReadOperand(c, dst, w), ReadOperand(c, src, sw);
    LoFits(a, w);
    LoFits(b, w);
    PlainWellFormed(op, Lo(a, w), Lo(b, w), w, c.flags);
    var out := Binary(op, a, b, w, c.flags);
    WriteKeepsFlags(c.(flags := out.f), dst, w, out.r);
  }

  lemma ShiftKindDead(c: Cpu, op: Op, dst: Operand, src: Operand, w: Width)
    requires IsShiftOp(op) && CountShape(src)
    ensures var out := ExecAlu(c, op, dst, src, w);
      out.Done? ==>
        if CountOf(c, src) == 0 then out.c.flags == c.flags
        else out.c.flags.kind == ShiftKind(op) && out.c.flags.w == w && WellFormed(out.c.flags)
  {
    hide Readable, WriteOperand, Cf, Lo, ShiftResult, WellFormed, RegRead, MemRead, EffectiveAddress, Count;
    var sw := SourceWidth(op, src, w);
    var a, b := ReadOperand(c, dst, w), ReadOperand(c, src, sw);
    LoFits(a, w);
    CountOfLow(b, w);
    if CountOf(c, src) != 0 { ShiftWellFormed(op, Lo(a, w), Lo(b, w), w, c.flags); }
    var out := Binary(op, a, b, w, c.flags);
    WriteKeepsFlags(c.(flags := out.f), dst, w, out.r);
  }

  lemma RunUnary(op: UnaryOp, dst: Operand, w: Width, t: Track, dead: bool, pc: Word, h: Host, k: Clobber)
    requires h.status == Running && Mapped(h.c.mem) && Tracked(t, h.c.flags)
    ensures var i := UnaryInsn(op, dst, w);
      Follows(ExecUnary(h.c, op, dst, w), Run(UnaryCode(op, dst, w, t.kind, dead, pc), h, k), h, Elided(i, dead), HeldAfter(i, dead), pc)
  {
    hide Run, UnaryCode, ExecUnary, Mapped, Tracked, Describes, Same;
    if op == NOT {
      RunNot(dst, w, t, dead, pc, h, k);
    } else if dead || op == NEG {
      RunPlainUnary(op, dst, w, t, dead, pc, h, k);
    } else {
      RunCounting(op, dst, w, t, pc, h, k);
    }
  }

  lemma SahfBit(c: Cpu)
    ensures IsBit(ExecSahf(c).flags.carryIn) && ExecSahf(c).flags.kind == Explicit && WellFormed(ExecSahf(c).flags)
  {
    hide SahfWord, HasCf;
  }

  lemma LahfFlags(c: Cpu)
    ensures ExecLahf(c).flags == c.flags
  {
    hide LahfAx;
  }

  /**
   Every translated instruction, at any state the translator's knowledge is
   true of, ends as the interpreter's: the same fault at the same EIP, or the
   same registers and memory, with the same flags unless their store was left
   out, and with the registers it names still holding the recorded tuple.
   */
  lemma RunInsn(i: Insn, t: Track, held: FlagRegs, dead: bool, pc: Word, h: Host, k: Clobber)
    requires h.status == Running && Mapped(h.c.mem) && Emittable(i) && StraightLine(i) && LeaFlat(h.c, i)
    requires Tracked(t, h.c.flags) && Describes(held, h.x, h.c.flags)
    ensures Follows(Body(h.c, i), Run(InsnCode(i, t, held, dead, pc), h, k), h, Elided(i, dead), HeldAfter(i, dead), pc)
  {
    TrackedBit(t, h.c.flags);
    hide Run, AluCode, UnaryCode, MovCode, LeaCode, SetccCode, ExecAlu, ExecUnary, ExecMov, ExecSetcc, ExecLahf, ExecSahf,
      Mapped, Tracked, Describes, Follows, Offset, EffectiveAddress, RegWrite;
    var g := Run(InsnCode(i, t, held, dead, pc), h, k);
    match i {
      case Nop => RunNil(h, k); PlainlyFollows(h.c, g, h, pc);
      case Mov(dst, src, w) => RunMov(dst, src, w, pc, h, k);
      case Lea(r, m) => RunLea(r, m, pc, h, k); LeaAgreesExactly(h.c, m); PlainlyFollows(Body(h.c, i).c, g, h, pc);
      case AluInsn(op, dst, src, w) => RunAlu(op, dst, src, w, dead, pc, h, k);
      case UnaryInsn(op, dst, w) => RunUnary(op, dst, w, t, dead, pc, h, k);
      case Setcc(cc, dst) => RunSetcc(cc, dst, t, held, pc, h, k);
      case Lahf => RunCalled(CallLahf, h, k); LahfFlags(h.c); PlainlyFollows(ExecLahf(h.c), g, h, pc);
      case Sahf => RunCalled(CallSahf, h, k); SahfBit(h.c); PlainlyFollows(ExecSahf(h.c), g, h, pc);
    }
  }

  lemma TrackedBit(t: Track, f: Tuple)
    requires Tracked(t, f)
    ensures IsBit(f.carryIn)
  {
  }

  // ---- the tracking invariant ----

  /** A tuple equal to the interpreter's up to a dead `carryIn` is as well formed. */
  lemma SameWellFormed(f: Tuple, g: Tuple)
    requires Same(f, g) && WellFormed(g) && IsBit(f.carryIn)
    ensures WellFormed(f)
  {
    hide Fits, Sum, Diff;
  }

  lemma UnaryKindIs(c: Cpu, op: UnaryOp, dst: Operand, w: Width)
    requires op != NOT
    ensures var out := ExecUnary(c, op, dst, w);
      out.Done? ==> out.c.flags.kind == UnaryKind(op) && out.c.flags.w == w && WellFormed(out.c.flags)
  {
    hide Readable, ReadOperand, WriteOperand, Cf, Lo, WellFormed;
    var a := ReadOperand(c, dst, w);
    UnaryWellFormed(op, a, w, c.flags);
    var out := Unary(op, a, w, c.flags);
    WriteKeepsFlags(c.(flags := out.f), dst, w, out.r);
  }

  lemma NotKeepsFlags(c: Cpu, dst: Operand, w: Width)
    ensures ExecUnary(c, NOT, dst, w).Done? ==> ExecUnary(c, NOT, dst, w).c.flags == c.flags
  {
    hide Readable, ReadOperand, WriteOperand, Lo;
    var out := Unary(NOT, ReadOperand(c, dst, w), w, c.flags);
    WriteKeepsFlags(c.(flags := out.f), dst, w, out.r);
  }

  lemma EagerKind(c: Cpu, op: Op, dst: Operand, src: Operand, w: Width)
    requires op == ADC || op == SBB
    ensures ExecAlu(c, op, dst, src, w).Done? ==> ExecAlu(c, op, dst, src, w).c.flags.kind == Explicit
  {
    hide Readable, ReadOperand, WriteOperand, Lo, Cf, WordOf, AdcFlags, SbbFlags, HasCf, SourceWidth;
    var sw := SourceWidth(op, src, w);
    var out := Binary(op, ReadOperand(c, dst, w), ReadOperand(c, src, sw), w, c.flags);
    WriteKeepsFlags(c.(flags := out.f), dst, w, out.r);
  }

  lemma MovKeepsFlags(c: Cpu, i: Insn)
    requires i.Mov? || i.Lea? || i.Setcc? || i.Lahf? || i.Nop?
    ensures Body(c, i).Done? ==> Body(c, i).c.flags == c.flags
  {
    hide Readable, ReadOperand, WriteOperand, EffectiveAddress, RegWrite, LahfAx, InRange;
    match i {
      case Mov(dst, src, w) => WriteKeepsFlags(c, dst, w, ReadOperand(c, src, w));
      case Setcc(cc, dst) => WriteKeepsFlags(c, dst, W1, Num(Cond.Holds(cc, c.flags)));
      case _ =>
    }
  }

  lemma KeptTracked(t: Track, f: Tuple, g: Tuple)
    requires Tracked(t, f) && IsBit(g.carryIn) && Same(g, f)
    ensures Tracked(t, g)
  {
    hide WellFormed;
    if t.kind.Known? { SameWellFormed(g, f); }
  }

  lemma KnownTracked(kind: Kind, w: Known<Width>, f: Tuple, g: Tuple)
    requires f.kind == kind && WellFormed(f) && Same(g, f) && IsBit(g.carryIn) && (w.Known? ==> f.w == w.v)
    ensures Tracked(Track(Known(kind), w), g)
  {
    hide WellFormed;
    SameWellFormed(g, f);
  }

  lemma ExplicitWellFormed(f: Tuple, g: Tuple)
    requires f.kind == Explicit && Same(g, f) && IsBit(g.carryIn)
    ensures Tracked(Track(Known(Explicit), Unknown), g)
  {
  }

  /** After the instruction the translator's knowledge is true of the tuple then in memory. */
  lemma TrackingKept(i: Insn, t: Track, dead: bool, h: Host, g: Host, pc: Word)
    requires StraightLine(i) && Emittable(i) && Tracked(t, h.c.flags)
    requires Body(h.c, i).Done? && Follows(Body(h.c, i), g, h, Elided(i, dead), HeldAfter(i, dead), pc)
    ensures Tracked(TrackAfter(i, t, dead), g.c.flags)
    ensures Describes(HeldAfter(i, dead), g.x, g.c.flags)
  {
    TrackedBit(t, h.c.flags);
    if !Elided(i, dead) { FollowsDescribes(Body(h.c, i), g, h, HeldAfter(i, dead), pc); }
    else { ElidedKeeps(i, t, dead, h, g, pc); }
    if !Elided(i, dead) { RecordedTracked(i, t, dead, h, g, pc); }
    hide Body, Follows, Tracked, Describes, TrackAfter, HeldAfter, Emittable;
  }

  lemma FollowsDescribes(out: Step, g: Host, h: Host, regs: FlagRegs, pc: Word)
    requires Follows(out, g, h, false, regs, pc) && out.Done?
    ensures Describes(regs, g.x, g.c.flags)
  {
  }

  lemma ElidedKeeps(i: Insn, t: Track, dead: bool, h: Host, g: Host, pc: Word)
    requires Elided(i, dead) && Emittable(i) && Tracked(t, h.c.flags)
    requires Body(h.c, i).Done? && Follows(Body(h.c, i), g, h, true, HeldAfter(i, dead), pc)
    ensures Tracked(TrackAfter(i, t, dead), g.c.flags)
    ensures Describes(HeldAfter(i, dead), g.x, g.c.flags)
  {
    hide Body, WellFormed, Count;
    assert g.c.flags == h.c.flags;
  }

  lemma RecordedTracked(i: Insn, t: Track, dead: bool, h: Host, g: Host, pc: Word)
    requires StraightLine(i) && Emittable(i) && Tracked(t, h.c.flags) && !Elided(i, dead) && IsBit(h.c.flags.carryIn)
    requires Body(h.c, i).Done? && Follows(Body(h.c, i), g, h, false, HeldAfter(i, dead), pc)
    ensures Tracked(TrackAfter(i, t, dead), g.c.flags)
  {
    var f, f' := Body(h.c, i).c.flags, g.c.flags;
    assert Same(f', f) && IsBit(f'.carryIn);
    hide Follows, Tracked, WellFormed, Describes, ExecAlu, ExecUnary, ExecMov, ExecSetcc, ExecLahf, ExecSahf, Same, Count,
      EffectiveAddress, RegWrite;
    match i {
      case AluInsn(op, dst, src, w) =>
        if IsPlain(op) {
          PlainKindDead(h.c, op, dst, src, w);
          KnownTracked(PlainKind(op), Known(w), f, f');
        } else if IsShiftOp(op) {
          ShiftKindDead(h.c, op, dst, src, w);
          ShiftTracked(op, src, w, t, f, f', h.c);
        } else if op == ADC || op == SBB {
          EagerKind(h.c, op, dst, src, w);
          ExplicitWellFormed(f, f');
        } else {
          LostTracked(f');
        }
      case UnaryInsn(op, dst, w) =>
        if op == NOT {
          NotKeepsFlags(h.c, dst, w);
          KeptTracked(t, f, f');
        } else {
          UnaryKindIs(h.c, op, dst, w);
          KnownTracked(UnaryKind(op), Known(w), f, f');
        }
      case Sahf =>
        SahfBit(h.c);
        ExplicitWellFormed(f, f');
      case _ =>
        MovKeepsFlags(h.c, i);
        KeptTracked(t, f, f');
    }
  }

  lemma LostTracked(f: Tuple)
    requires IsBit(f.carryIn)
    ensures Tracked(LOST, f)
  {
  }

  lemma ShiftTracked(op: Op, src: Operand, w: Width, t: Track, f: Tuple, g: Tuple, c: Cpu)
    requires IsShiftOp(op) && CountShape(src) && Tracked(t, c.flags) && Same(g, f) && IsBit(g.carryIn)
    requires if CountOf(c, src) == 0 then f == c.flags else f.kind == ShiftKind(op) && f.w == w && WellFormed(f)
    ensures Tracked(if !src.Imm? then LOST else if Count(src.v) == 0 then t else Track(Known(ShiftKind(op)), Known(w)), g)
  {
    hide Tracked, WellFormed, Same, RegRead, Count;
    if !src.Imm? {
      LostTracked(g);
    } else if Count(src.v) == 0 {
      KeptTracked(t, f, g);
    } else {
      KnownTracked(ShiftKind(op), Known(w), f, g);
    }
  }

  /** What has an emitter: a writable destination, at most one memory operand, and a count in CL or the instruction. */
  lemma EmittableExactly(i: Insn)
    ensures Emittable(i) <==>
      && (i.Mov? || i.AluInsn? || i.UnaryInsn? || i.Setcc? ==> !i.dst.Imm?)
      && (i.Mov? || i.AluInsn? ==> !i.dst.Mem? || !i.src.Mem?)
      && (i.AluInsn? && i.op in {SHL, SHR, SAR, ROL, ROR, RCL, RCR} ==> i.src.Imm? || i.src == Reg(1))
  {
  }
}
