/** Moves, LEA, the called ALU, conditions as values, LAHF and SAHF. */
module MoveProof {
  import opened Words
  import opened Flags
  import opened Alu
  import opened Cond
  import opened Guest
  import opened A64
  import opened A64Cond
  import opened Emitter
  import opened EmitterFacts
  import opened EmitterProof

  /** The guest state becomes `c` and the block goes on. */
  lemma PlainlyFollows(c: Cpu, g: Host, h: Host, pc: Word)
    requires g.status == Running && g.c == c && (IsBit(h.c.flags.carryIn) ==> IsBit(c.flags.carryIn))
    ensures Follows(Done(c), g, h, false, NOWHERE, pc)
  {
  }

  // ---- MOV ----

  lemma RunMovReady(dst: Operand, src: Operand, w: Width, pc: Word, h: Host, h1: Host, k: Clobber)
    requires h.status == Running && WriteShape(dst) && SameButAddress(h, h1) && Prepared(h1, dst) && Prepared(h1, src)
    requires !src.Imm?
    ensures var g := Run(LoadPrepared(X0, src, w, StorePrepared(dst, w, X0)), h1, k);
      g.status == Running && g.c == WriteOperand(h.c, dst, w, ReadOperand(h.c, src, w))
  {
    hide Run, Prepared, LoadPrepared, StorePrepared, WriteOperand, RegRead, MemRead, EffectiveAddress, Lo;
    var h2 := RunLoad(X0, src, w, StorePrepared(dst, w, X0), h1, k);
    match src {
      case Reg(r) => NarrowReads(h.c.regs, r, h.c.mem, 0, w);
      case Mem(m) => NarrowReads(h.c.regs, 0, h.c.mem, EffectiveAddress(h.c, m), w);
    }
    PreparedKept(h1, X0, h2.x.x0, dst);
    RunStore(dst, w, X0, h2, k);
  }

  lemma RunMovImmediate(dst: Operand, v: Word, w: Width, h: Host, k: Clobber)
    requires h.status == Running && Prepared(h, dst) && WriteShape(dst)
    ensures var g := Run(if dst.Mem? then Emit(StoreMemImm(w, v), Nil) else Emit(StoreRegImm(dst.r, w, v), Nil), h, k);
      g.status == Running && g.c == WriteOperand(h.c, dst, w, v)
  {
    hide Run, RegWrite, MemWrite, EffectiveAddress;
    var op := if dst.Mem? then StoreMemImm(w, v) else StoreRegImm(dst.r, w, v);
    RunEmit(op, Nil, h, k);
    RunNil(Do(op, h, k), k);
  }

  lemma RunMov(dst: Operand, src: Operand, w: Width, pc: Word, h: Host, k: Clobber)
    requires h.status == Running && Mapped(h.c.mem) && WriteShape(dst) && NotBothMemory(dst, src)
    ensures Follows(ExecMov(h.c, dst, src, w), Run(MovCode(dst, src, w, pc), h, k), h, false, NOWHERE, pc)
  {
    hide Run, Prepared, PrepareIfMemory, LoadPrepared, StorePrepared, WriteOperand, ReadOperand, Readable, Mapped, Follows;
    var code := match (dst, src)
      case (Mem(_), Imm(v)) => Emit(StoreMemImm(w, v), Nil)
      case (Reg(r), Imm(v)) => Emit(StoreRegImm(r, w, v), Nil)
      case _ => LoadPrepared(X0, src, w, StorePrepared(dst, w, X0));
    var h1 := RunPrepareBoth(dst, src, w, pc, code, h, k);
    var g := Run(MovCode(dst, src, w, pc), h, k);
    if Readable(h.c, dst, w) && Readable(h.c, src, w) {
      if src.Imm? {
        RunMovImmediate(dst, src.v, w, h1, k);
        ReadImm(h.c, src.v, w);
      } else {
        RunMovReady(dst, src, w, pc, h, h1, k);
      }
      WriteKeepsFlags(h.c, dst, w, ReadOperand(h.c, src, w));
      PlainlyFollows(WriteOperand(h.c, dst, w, ReadOperand(h.c, src, w)), g, h, pc);
    } else {
      FaultFollows(h.c, g, h, false, NOWHERE, pc);
    }
  }

  lemma ReadImm(c: Cpu, v: Word, w: Width)
    ensures ReadOperand(c, Imm(v), w) == v
  {
  }

  // ---- LEA ----

  lemma RunLea(r: RegIndex, m: MemRef, pc: Word, h: Host, k: Clobber)
    requires h.status == Running
    ensures var g := Run(LeaCode(r, m), h, k);
      g.status == Running && g.c == h.c.(regs := RegWrite(h.c.regs, r, W4, Offset(h.c, m)))
  {
    hide Run, AddressParts, Offset, RegWrite;
    var h1 := RunAddressParts(m, Emit(StoreReg(r, W4, EA), Nil), h, k);
    RunEmit(StoreReg(r, W4, EA), Nil, h1, k);
    RunNil(Do(StoreReg(r, W4, EA), h1, k), k);
  }

  /** The emitted LEA stores the interpreter's address if and only if the segment the reference names has base zero. */
  lemma LeaAgreesExactly(c: Cpu, m: MemRef)
    ensures Offset(c, m) == EffectiveAddress(c, m) <==> SegmentBase(c, m.seg) == 0
  {
    hide BaseValue, IndexValue;
    var o := Offset(c, m);
    PlusIsIdentity(o, SegmentBase(c, m.seg));
  }

  lemma PlusIsIdentity(a: Word, b: Word)
    ensures Plus(a, b) == a <==> b == 0
  {
    LoNear(a + b, W4);
  }

  // ---- ADC, SBB and the rotates: the shared ALU, called ----

  lemma BinaryMasks(op: Op, a: Word, b: Word, b1: Word, w: Width, f: Tuple)
    requires Lo(b1, w) == Lo(b, w)
    ensures Binary(op, Lo(a, w), b1, w, f) == Binary(op, a, b, w, f)
  {
    hide Lo, Plain, Shift, Rotate, RotateThrough, Cf, AdcFlags, SbbFlags, RecordExplicit, WordOf;
    LoFits(a, w);
    LoOfFits(Lo(a, w), w);
  }

  lemma SourceMasked(c: Cpu, op: Op, src: Operand, w: Width)
    ensures var sw := SourceWidth(op, src, w);
      Lo(Lo(ReadOperand(c, src, sw), sw), w) == Lo(ReadOperand(c, src, sw), w)
  {
    hide Lo, RegRead, MemRead, EffectiveAddress;
    var sw := SourceWidth(op, src, w);
    var v := ReadOperand(c, src, sw);
    if src.Reg? {
      NarrowReads(c.regs, src.r, c.mem, 0, sw);
    } else {
      LoFits(v, w);
      LoOfFits(Lo(v, w), w);
    }
  }

  lemma RunHelperReady(op: Op, dst: Operand, src: Operand, w: Width, h: Host, k: Clobber)
    requires h.status == Running && Prepared(h, dst) && Prepared(h, src)
    ensures var sw := SourceWidth(op, src, w);
      var g := Run(LoadPrepared(X1, dst, w, LoadPrepared(X2, src, sw, Emit(CallAlu(op, w),
                 if Discards(op) then Nil else StorePrepared(dst, w, X0)))), h, k);
      var out := Binary(op, ReadOperand(h.c, dst, w), ReadOperand(h.c, src, sw), w, h.c.flags);
      var c := h.c.(flags := out.f);
      g.status == Running && g.c == if Discards(op) then c else WriteOperand(c, dst, w, out.r)
  {
    hide Run, LoadPrepared, StorePrepared, ReadOperand, WriteOperand, Prepared, Binary, Lo, Discards, SourceWidth;
    var sw := SourceWidth(op, src, w);
    var store := if Discards(op) then Nil else StorePrepared(dst, w, X0);
    var call := Emit(CallAlu(op, w), store);
    var a, b := ReadOperand(h.c, dst, w), ReadOperand(h.c, src, sw);
    var h1 := RunLoad(X1, dst, w, LoadPrepared(X2, src, sw, call), h, k);
    PreparedKept(h, X1, Lo(a, w), src);
    PreparedKept(h, X1, Lo(a, w), dst);
    var h2 := RunLoad(X2, src, sw, call, h1, k);
    PreparedKept(h1, X2, Lo(b, sw), dst);
    SourceMasked(h.c, op, src, w);
    BinaryMasks(op, a, b, Lo(b, sw), w, h.c.flags);
    var h3 := RunCallAlu(op, w, store, h2, k);
    PreparedAcross(h2, h3, dst);
    if Discards(op) { RunNil(h3, k); } else { RunStore(dst, w, X0, h3, k); }
  }

  lemma RunCallAlu(op: Op, w: Width, next: Code, h: Host, k: Clobber) returns (g: Host)
    requires h.status == Running
    ensures Run(Emit(CallAlu(op, w), next), h, k) == Run(next, g, k)
    ensures var out := Binary(op, h.x.x1, h.x.x2, w, h.c.flags);
      g.status == Running && g.c == h.c.(flags := out.f) && g.x.x0 == out.r && g.x.ea == h.x.ea
  {
    hide Run, Binary;
    g := Do(CallAlu(op, w), h, k);
    RunEmit(CallAlu(op, w), next, h, k);
  }

  lemma PreparedAcross(h: Host, g: Host, o: Operand)
    requires Prepared(h, o) && SameBody(h.c, g.c) && g.x.ea == h.x.ea
    ensures Prepared(g, o)
  {
    AddressIgnoresFlags(h.c, g.c, o);
  }

  lemma BinaryCarryIn(op: Op, a: Word, b: Word, w: Width, f: Tuple)
    requires IsBit(f.carryIn)
    ensures IsBit(Binary(op, a, b, w, f).f.carryIn)
  {
    hide Cf, Lo, PlainResult, ShiftResult, RotateSteps, WordOf, HasCf, AdcFlags, SbbFlags;
  }

  lemma RunHelper(op: Op, dst: Operand, src: Operand, w: Width, pc: Word, h: Host, k: Clobber)
    requires h.status == Running && Mapped(h.c.mem) && NotBothMemory(dst, src) && IsBit(h.c.flags.carryIn)
    ensures Follows(ExecAlu(h.c, op, dst, src, w), Run(HelperCode(op, dst, src, w, pc), h, k), h, false, NOWHERE, pc)
  {
    hide Run, Prepared, PrepareIfMemory, LoadPrepared, StorePrepared, WriteOperand, ReadOperand, Mapped, Follows,
      Binary, EffectiveAddress, InRange, Discards;
    var sw := SourceWidth(op, src, w);
    assert Readable(h.c, src, w) == Readable(h.c, src, sw);
    hide Readable, SourceWidth;
    var code := LoadPrepared(X1, dst, w, LoadPrepared(X2, src, sw, Emit(CallAlu(op, w),
                  if Discards(op) then Nil else StorePrepared(dst, w, X0))));
    var h1 := RunPrepareBoth(src, dst, w, pc, code, h, k);
    var g := Run(HelperCode(op, dst, src, w, pc), h, k);
    if Readable(h.c, dst, w) && Readable(h.c, src, w) {
      RunHelperReady(op, dst, src, w, h1, k);
      BinaryCarryIn(op, ReadOperand(h.c, dst, w), ReadOperand(h.c, src, sw), w, h.c.flags);
      WriteKeepsFlags(h.c.(flags := Binary(op, ReadOperand(h.c, dst, w), ReadOperand(h.c, src, sw), w, h.c.flags).f), dst, w,
        Binary(op, ReadOperand(h.c, dst, w), ReadOperand(h.c, src, sw), w, h.c.flags).r);
      PlainlyFollows(ExecAlu(h.c, op, dst, src, w).c, g, h, pc);
    } else {
      FaultFollows(h.c, g, h, false, NOWHERE, pc);
    }
  }

  // ---- conditions ----

  lemma LoadAlignedStraight(d: XReg, field: FlagField, held: Held, shift: Word, next: Code)
    requires Straight(next)
    ensures Straight(LoadAligned(d, field, held, shift, next))
  {
  }

  lemma LowerIsStraight(cc: Cc, kind: Kind, w: Width, held: FlagRegs)
    ensures Lower(cc, kind, w, held).Compare? ==> Straight(Lower(cc, kind, w, held).code)
  {
    hide LoadAligned;
    var shift := AlignShift(w);
    var a := if held.a == In(X1) && held.b == In(X0) then InMemory else held.a;
    var sub, add, zero := Emit(CmpReg(X0, X1), Nil), Emit(CmnReg(X0, X1), Nil), Emit(CmpImm(X0, 0), Nil);
    assert Straight(sub) && Straight(add) && Straight(zero);
    LoadAlignedStraight(X0, FR, held.r, shift, zero);
    forall last | last in [sub, add] ensures Straight(LoadOperands(held, shift, last)) {
      LoadAlignedStraight(X0, FA, a, shift, last);
      LoadAlignedStraight(X1, FB, held.b, shift, last);
      LoadAlignedStraight(X1, FB, held.b, shift, LoadAligned(X0, FA, a, shift, last));
      LoadAlignedStraight(X0, FA, a, shift, LoadAligned(X1, FB, held.b, shift, last));
    }
    assert sub in [sub, add] && add in [sub, add];
    hide LoadOperands;
  }

  /** What a lowered condition promises, at a state the translator tracks. */
  lemma LoweredIsExact(cc: Cc, t: Track, held: FlagRegs, h: Host, k: Clobber)
    requires h.status == Running && Tracked(t, h.c.flags) && Describes(held, h.x, h.c.flags)
    ensures Exact(Lowered(cc, t, held), cc, h, k)
    ensures Lowered(cc, t, held).Compare? ==> Straight(Lowered(cc, t, held).code)
  {
    hide Lower, Exact, WellFormed, Describes, Straight;
    if t.kind.Known? && t.w.Known? {
      LoweringIsExact(cc, held, h, k);
      LowerIsStraight(cc, t.kind.v, t.w.v, held);
    } else {
      RefusalIsExact(cc, h, k);
    }
  }

  lemma RefusalIsExact(cc: Cc, h: Host, k: Clobber)
    ensures Exact(Refused, cc, h, k)
  {
  }

  lemma RunCallCond(cc: Cc, next: Code, h: Host, k: Clobber) returns (g: Host)
    requires h.status == Running
    ensures Run(Emit(CallCond(cc), next), h, k) == Run(next, g, k)
    ensures g.status == Running && g.c == h.c && g.x.x0 == Num(Holds(cc, h.c.flags))
  {
    hide Run, Holds;
    g := Do(CallCond(cc), h, k);
    RunEmit(CallCond(cc), next, h, k);
  }

  /** The lowered code, then what reads its answer. */
  lemma RunCompared(cc: Cc, code: Code, host: HostCc, next: Code, h: Host, k: Clobber) returns (g: Host)
    requires Exact(Compare(code, host), cc, h, k) && Straight(code)
    ensures Run(Append(code, next), h, k) == Run(next, g, k)
    ensures g.status == Running && g.c == h.c && Passes(host, g.p) == Holds(cc, h.c.flags)
  {
    hide Run, Holds, Passes, Straight;
    RunAppend(code, next, h, k);
    g := Run(code, h, k);
  }

  /** The condition as a value, however it is obtained. */
  lemma RunConditionValue(cc: Cc, t: Track, held: FlagRegs, h: Host, k: Clobber)
    requires h.status == Running && Tracked(t, h.c.flags) && Describes(held, h.x, h.c.flags)
    ensures var g := Run(ConditionValue(cc, t, held), h, k);
      g.status == Running && g.c == h.c && g.x.x0 == Num(Holds(cc, h.c.flags))
    ensures Straight(ConditionValue(cc, t, held))
  {
    LoweredIsExact(cc, t, held, h, k);
    hide Lowered, Holds, Run, Passes, Tracked, Describes, Exact;
    match Lowered(cc, t, held) {
      case Refused =>
        var g := RunCallCond(cc, Nil, h, k);
        RunNil(g, k);
      case Constant(v) =>
        ConstantIs(cc, v, h, k);
        RunMovImm(X0, Num(v), Nil, h, k);
        RunNil(h.(x := Set(h.x, X0, Num(v))), k);
      case Compare(code, host) =>
        var h1 := RunCompared(cc, code, host, Emit(CSet(host, X0), Nil), h, k);
        StraightAppend(code, Emit(CSet(host, X0), Nil));
        RunCSet(host, h1, k);
    }
  }

  lemma ConstantIs(cc: Cc, v: bool, h: Host, k: Clobber)
    requires Exact(Constant(v), cc, h, k)
    ensures v == Holds(cc, h.c.flags)
  {
  }

  lemma RunCSet(host: HostCc, h: Host, k: Clobber)
    requires h.status == Running
    ensures Run(Emit(CSet(host, X0), Nil), h, k) == h.(x := h.x.(x0 := Num(Passes(host, h.p))))
  {
    hide Run, Passes;
    RunEmit(CSet(host, X0), Nil, h, k);
    RunNil(Do(CSet(host, X0), h, k), k);
  }

  lemma {:induction false} StraightAppend(p: Code, q: Code)
    requires Straight(p) && Straight(q)
    ensures Straight(Append(p, q))
  {
    match p {
      case Nil =>
      case Emit(op, next) => StraightAppend(next, q);
      case SkipIfZero(r, body, next) => StraightAppend(next, q);
    }
  }

  lemma RunSetccStore(dst: Operand, pc: Word, v: Word, h: Host, k: Clobber)
    requires h.status == Running && Mapped(h.c.mem) && WriteShape(dst) && h.x.x0 == v
    ensures var g := Run(SetccStore(dst, pc), h, k);
      if Readable(h.c, dst, W1) then g.status == Running && g.c == WriteOperand(h.c, dst, W1, v)
      else FaultedAt(h, g, pc)
  {
    hide Run, Mapped, Readable, WriteOperand, StorePrepared, PrepareIfMemory, EffectiveAddress, Do;
    match dst {
      case Mem(m) =>
        var store := Emit(StoreMem(W1, CARRY), Nil);
        assert StorePrepared(dst, W1, CARRY) == store by { StoreIs(dst); }
        assert PrepareIfMemory(dst, W1, pc, store) == Prepare(m, W1, pc, store) by { PrepareIs(dst, pc, store); }
        hide Prepare;
        var h1 := h.(x := Set(h.x, CARRY, v));
        RunMovReg(CARRY, X0, Prepare(m, W1, pc, store), h, k);
        var h2 := RunPrepare(dst, W1, pc, store, h1, k);
        if Readable(h.c, dst, W1) { RunStore(dst, W1, CARRY, h2, k); }
      case Reg(r) =>
        AlwaysReadable(h.c, dst);
        RunStore(dst, W1, X0, h, k);
    }
  }

  lemma StoreIs(dst: Operand)
    requires dst.Mem?
    ensures StorePrepared(dst, W1, CARRY) == Emit(StoreMem(W1, CARRY), Nil)
  {
  }

  lemma PrepareIs(dst: Operand, pc: Word, next: Code)
    requires dst.Mem?
    ensures PrepareIfMemory(dst, W1, pc, next) == Prepare(dst.m, W1, pc, next)
  {
  }

  lemma AlwaysReadable(c: Cpu, o: Operand)
    requires !o.Mem?
    ensures Readable(c, o, W1)
  {
  }

  lemma RunSetcc(cc: Cc, dst: Operand, t: Track, held: FlagRegs, pc: Word, h: Host, k: Clobber)
    requires h.status == Running && Mapped(h.c.mem) && WriteShape(dst)
    requires Tracked(t, h.c.flags) && Describes(held, h.x, h.c.flags)
    ensures Follows(ExecSetcc(h.c, cc, dst), Run(SetccCode(cc, dst, t, held, pc), h, k), h, false, NOWHERE, pc)
  {
    hide Run, Mapped, Readable, WriteOperand, ConditionValue, SetccStore, Straight, Tracked, Describes, Holds, Follows;
    RunConditionValue(cc, t, held, h, k);
    RunAppend(ConditionValue(cc, t, held), SetccStore(dst, pc), h, k);
    var h1 := Run(ConditionValue(cc, t, held), h, k);
    var v := Num(Holds(cc, h.c.flags));
    RunSetccStore(dst, pc, v, h1, k);
    var g := Run(SetccCode(cc, dst, t, held, pc), h, k);
    if Readable(h.c, dst, W1) {
      WriteKeepsFlags(h.c, dst, W1, v);
      PlainlyFollows(WriteOperand(h.c, dst, W1, v), g, h, pc);
    } else {
      FaultFollows(h.c, g, h, false, NOWHERE, pc);
    }
  }

  /** A branch leaves the block at the interpreter's next EIP, however its condition was obtained. */
  lemma RunJcc(cc: Cc, t: Track, held: FlagRegs, target: Word, next: Word, h: Host, k: Clobber)
    requires h.status == Running && Tracked(t, h.c.flags) && Describes(held, h.x, h.c.flags)
    ensures var g := Run(JccCode(cc, t, held, target, next), h, k);
      g.status == Ended && g.c == h.c.(eip := if Holds(cc, h.c.flags) then target else next)
  {
    LoweredIsExact(cc, t, held, h, k);
    hide Lowered, Holds, Run, Passes, Tracked, Describes, Exact, Straight;
    match Lowered(cc, t, held) {
      case Refused =>
        var h1 := RunCallCond(cc, Emit(TstReg(X0), ExitOn(NE, target, next)), h, k);
        RunTested(target, next, h1, k);
      case Constant(v) =>
        ConstantIs(cc, v, h, k);
        RunExit(if v then target else next, h, k);
      case Compare(code, host) =>
        var h1 := RunCompared(cc, code, host, ExitOn(host, target, next), h, k);
        RunExitOn(host, target, next, h1, k);
    }
  }

  lemma RunTested(target: Word, next: Word, h: Host, k: Clobber)
    requires h.status == Running
    ensures Run(Emit(TstReg(X0), ExitOn(NE, target, next)), h, k).status == Ended
    ensures Run(Emit(TstReg(X0), ExitOn(NE, target, next)), h, k).c
      == h.c.(eip := if h.x.x0 != 0 then target else next)
  {
    hide Run;
    var h1 := Do(TstReg(X0), h, k);
    RunEmit(TstReg(X0), ExitOn(NE, target, next), h, k);
    RunExitOn(NE, target, next, h1, k);
  }

  lemma RunExit(eip: Word, h: Host, k: Clobber)
    requires h.status == Running
    ensures Run(Exit(eip, Ended), h, k) == h.(c := h.c.(eip := eip), status := Ended)
  {
  }

  lemma RunExitOn(cc: HostCc, target: Word, next: Word, h: Host, k: Clobber)
    requires h.status == Running
    ensures Run(ExitOn(cc, target, next), h, k)
      == h.(c := h.c.(eip := if Passes(cc, h.p) then target else next), status := Ended)
  {
    hide Passes;
  }

  // ---- LAHF and SAHF ----

  lemma RunCalled(op: HostOp, h: Host, k: Clobber)
    requires h.status == Running && (op == CallLahf || op == CallSahf)
    ensures var g := Run(Emit(op, Nil), h, k);
      g.status == Running && g.c == if op == CallLahf then ExecLahf(h.c) else ExecSahf(h.c)
  {
    hide Run, ExecLahf, ExecSahf;
    RunEmit(op, Nil, h, k);
    RunNil(Do(op, h, k), k);
  }
}
