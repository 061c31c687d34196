/** A translated block is the interpreter run for as many instructions, stopping at the first fault. */
module BlockProof {
  import opened Words
  import opened Flags
  import opened Alu
  import opened Cond
  import opened Guest
  import opened A64
  import opened A64Cond
  import opened Emitter
  import opened EmitterFacts
  import opened EmitterProof
  import opened UnaryProof
  import opened MoveProof
  import opened InsnProof
  import opened Translator

  /** The reference: n instructions, each decoded where EIP stands, until one faults. */
  function Interpret(env: Env, c: Cpu, n: nat): Step
    decreases n
  {
    if n == 0 then Done(c)
    else match env.decode(c.eip)
      case Fetched(i, length) =>
        (match Exec(c, i, length)
         case Done(c') => Interpret(env, c', n - 1)
         case Fault(c') => Fault(c'))
      case _ => Fault(c)
  }

  /** Equal but for a `carryIn` no flag operation will read. */
  predicate Agree(c: Cpu, d: Cpu) {
    SameBody(c, d) && c.eip == d.eip && Same(c.flags, d.flags)
  }

  /** Every LEA of the block names a segment of base zero. */
  predicate LeasFlat(c: Cpu, b: Block) {
    match b
    case Then(i, _, _, rest) => LeaFlat(c, i) && LeasFlat(c, rest)
    case _ => true
  }

  // ---- one instruction on two states that differ in their flags ----

  /** Flags equal up to a dead `carryIn`: the same outcome, equal up to a dead `carryIn`. */
  lemma BodyCongruent(c: Cpu, d: Cpu, i: Insn)
    requires SameBody(c, d) && Same(c.flags, d.flags)
    ensures Body(c, i).Done? == Body(d, i).Done?
    ensures Body(c, i).Done? ==> SameBody(Body(c, i).c, Body(d, i).c) && Same(Body(c, i).c.flags, Body(d, i).c.flags)
  {
    hide Same, RegRead, RegWrite, MemRead, MemWrite, EffectiveAddress, InRange, Binary, Unary, Holds, LahfAx, SahfWord, Eflags,
      ReadOperand, WriteOperand, SourceWidth, Discards, Readable, SameBody;
    AddressesAgree(c, d, i);
    SameFlags(c.flags, d.flags);
    match i {
      case AluInsn(op, dst, src, w) => AluCongruent(c, d, op, dst, src, w);
      case UnaryInsn(op, dst, w) => UnaryBodyCongruent(c, d, op, dst, w);
      case Mov(dst, src, w) =>
        OperandCongruent(c, d, dst, w);
        OperandCongruent(c, d, src, w);
        WriteCongruent(c, d, dst, w, ReadOperand(c, src, w));
      case Setcc(cc, dst) =>
        SameHolds(cc, c.flags, d.flags);
        OperandCongruent(c, d, dst, W1);
        WriteCongruent(c, d, dst, W1, Num(Holds(cc, c.flags)));
      case Lea(r, m) => LeaCongruent(c, d, r, m);
      case Lahf => LahfCongruent(c, d);
      case Sahf => SahfCongruent(c, d);
      case _ =>
    }
  }

  lemma AddressesAgree(c: Cpu, d: Cpu, i: Insn)
    requires SameBody(c, d)
    ensures i.Lea? ==> EffectiveAddress(c, i.m) == EffectiveAddress(d, i.m)
  {
  }

  lemma LeaCongruent(c: Cpu, d: Cpu, r: RegIndex, m: MemRef)
    requires SameBody(c, d) && Same(c.flags, d.flags)
    ensures SameBody(Body(c, Lea(r, m)).c, Body(d, Lea(r, m)).c) && Same(Body(c, Lea(r, m)).c.flags, Body(d, Lea(r, m)).c.flags)
  {
    hide Same, RegWrite, RegRead;
  }

  lemma LahfCongruent(c: Cpu, d: Cpu)
    requires SameBody(c, d) && Same(c.flags, d.flags)
    ensures SameBody(ExecLahf(c), ExecLahf(d)) && Same(ExecLahf(c).flags, ExecLahf(d).flags)
  {
    hide Same, RegWrite, RegRead, LahfAx, Eflags;
    SameFlags(c.flags, d.flags);
  }

  lemma SahfCongruent(c: Cpu, d: Cpu)
    requires SameBody(c, d) && Same(c.flags, d.flags)
    ensures SameBody(ExecSahf(c), ExecSahf(d)) && ExecSahf(c).flags == ExecSahf(d).flags
    ensures Same(ExecSahf(c).flags, ExecSahf(d).flags)
  {
    hide RegWrite, RegRead, SahfWord, Eflags;
    SameFlags(c.flags, d.flags);
  }

  lemma OperandCongruent(c: Cpu, d: Cpu, o: Operand, w: Width)
    requires SameBody(c, d)
    ensures Readable(c, o, w) == Readable(d, o, w) && ReadOperand(c, o, w) == ReadOperand(d, o, w)
  {
    hide InRange, EffectiveAddress;
    AddressIgnoresFlags(c, d, o);
    ReadIgnoresFlags(c, d, o, w);
  }

  lemma WriteCongruent(c: Cpu, d: Cpu, o: Operand, w: Width, v: Word)
    requires SameBody(c, d)
    ensures var c', d' := WriteOperand(c, o, w, v), WriteOperand(d, o, w, v);
      SameBody(c', d') && c'.flags == c.flags && d'.flags == d.flags && c'.eip == c.eip && d'.eip == d.eip
      && c'.mem.lo == c.mem.lo && c'.mem.size == c.mem.size && c'.fsBase == c.fsBase && c'.gsBase == c.gsBase
  {
    hide RegWrite, MemWrite, EffectiveAddress;
    AddressIgnoresFlags(c, d, o);
    match o {
      case Mem(m) => WriteKeepsMapping(c.mem, EffectiveAddress(c, m), w, v);
      case _ =>
    }
  }

  lemma WriteKeepsMapping(m: Memory, addr: Word, w: Width, v: Word)
    ensures MemWrite(m, addr, w, v).lo == m.lo && MemWrite(m, addr, w, v).size == m.size
  {
    hide ByteAt;
  }

  lemma AluCongruent(c: Cpu, d: Cpu, op: Op, dst: Operand, src: Operand, w: Width)
    requires SameBody(c, d) && Same(c.flags, d.flags)
    ensures var x, y := ExecAlu(c, op, dst, src, w), ExecAlu(d, op, dst, src, w);
      x.Done? == y.Done? && (x.Done? ==> SameBody(x.c, y.c) && Same(x.c.flags, y.c.flags))
  {
    hide Same, Readable, ReadOperand, WriteOperand, Binary, SourceWidth, Discards;
    var sw := SourceWidth(op, src, w);
    OperandCongruent(c, d, dst, w);
    OperandCongruent(c, d, src, sw);
    var a, b := ReadOperand(c, dst, w), ReadOperand(c, src, sw);
    BinaryCongruent(op, a, b, w, c.flags, d.flags);
    WriteCongruent(c.(flags := Binary(op, a, b, w, c.flags).f), d.(flags := Binary(op, a, b, w, d.flags).f), dst, w,
                   Binary(op, a, b, w, c.flags).r);
  }

  lemma UnaryBodyCongruent(c: Cpu, d: Cpu, op: UnaryOp, dst: Operand, w: Width)
    requires SameBody(c, d) && Same(c.flags, d.flags)
    ensures var x, y := ExecUnary(c, op, dst, w), ExecUnary(d, op, dst, w);
      x.Done? == y.Done? && (x.Done? ==> SameBody(x.c, y.c) && Same(x.c.flags, y.c.flags))
  {
    hide Same, Readable, ReadOperand, WriteOperand, Unary;
    OperandCongruent(c, d, dst, w);
    var a := ReadOperand(c, dst, w);
    UnaryCongruent(op, a, w, c.flags, d.flags);
    WriteCongruent(c.(flags := Unary(op, a, w, c.flags).f), d.(flags := Unary(op, a, w, d.flags).f), dst, w,
                   Unary(op, a, w, c.flags).r);
  }

  // ---- one instruction on two states whose flags have nothing in common ----

  /** What the scan passes over: no fault, no flag read, and a killer's flags depend on none it found. */
  lemma SkippedCongruent(c: Cpu, d: Cpu, i: Insn)
    requires SameBody(c, d) && Judge(i) != Stops
    ensures Body(c, i).Done? && Body(d, i).Done? && SameBody(Body(c, i).c, Body(d, i).c)
    ensures Judge(i) == Kills ==> Same(Body(c, i).c.flags, Body(d, i).c.flags)
  {
    hide Same, RegRead, RegWrite, MemRead, MemWrite, EffectiveAddress, InRange, Binary, Unary,
      ReadOperand, WriteOperand, SourceWidth, Discards, Readable, Count, SameBody;
    AddressesAgree(c, d, i);
    match i {
      case AluInsn(op, dst, src, w) => SkippedAlu(c, d, op, dst, src, w);
      case UnaryInsn(op, dst, w) => SkippedUnary(c, d, op, dst, w);
      case Mov(dst, src, w) =>
        NotMemoryReadable(c, d, dst, w);
        NotMemoryReadable(c, d, src, w);
        OperandCongruent(c, d, src, w);
        WriteCongruent(c, d, dst, w, ReadOperand(c, src, w));
      case Lea(r, m) => SkippedLea(c, d, r, m);
      case Nop =>
    }
  }

  lemma SkippedLea(c: Cpu, d: Cpu, r: RegIndex, m: MemRef)
    requires SameBody(c, d)
    ensures SameBody(Body(c, Lea(r, m)).c, Body(d, Lea(r, m)).c)
  {
    hide RegWrite, RegRead;
  }

  lemma NotMemoryReadable(c: Cpu, d: Cpu, o: Operand, w: Width)
    requires !o.Mem?
    ensures Readable(c, o, w) && Readable(d, o, w)
  {
  }

  lemma KillerAlu(op: Op, a: Word, b: Word, w: Width, f: Tuple, g: Tuple)
    requires IsPlain(op) || (IsShiftOp(op) && Count(Lo(b, w)) != 0)
    ensures Binary(op, a, b, w, f).r == Binary(op, a, b, w, g).r
    ensures Same(Binary(op, a, b, w, f).f, Binary(op, a, b, w, g).f)
  {
    hide Cf, Lo, PlainResult, ShiftResult, Count;
  }

  lemma SkippedAlu(c: Cpu, d: Cpu, op: Op, dst: Operand, src: Operand, w: Width)
    requires SameBody(c, d) && Judge(AluInsn(op, dst, src, w)) != Stops
    ensures var x, y := ExecAlu(c, op, dst, src, w), ExecAlu(d, op, dst, src, w);
      x.Done? && y.Done? && SameBody(x.c, y.c) && Same(x.c.flags, y.c.flags)
  {
    hide Same, ReadOperand, WriteOperand, Binary, SourceWidth, Discards, Readable, Count;
    var sw := SourceWidth(op, src, w);
    NotMemoryReadable(c, d, dst, w);
    NotMemoryReadable(c, d, src, sw);
    OperandCongruent(c, d, dst, w);
    OperandCongruent(c, d, src, sw);
    var a, b := ReadOperand(c, dst, w), ReadOperand(c, src, sw);
    if IsShiftOp(op) { ReadImm(c, src.v, sw); ShiftProof.CountOfLow(src.v, w); }
    KillerAlu(op, a, b, w, c.flags, d.flags);
    WriteCongruent(c.(flags := Binary(op, a, b, w, c.flags).f), d.(flags := Binary(op, a, b, w, d.flags).f), dst, w,
                   Binary(op, a, b, w, c.flags).r);
  }

  lemma KillerUnary(op: UnaryOp, a: Word, w: Width, f: Tuple, g: Tuple)
    requires op == NEG || op == NOT
    ensures Unary(op, a, w, f).r == Unary(op, a, w, g).r
    ensures op == NEG ==> Same(Unary(op, a, w, f).f, Unary(op, a, w, g).f)
  {
    hide Cf, Lo;
  }

  lemma SkippedUnary(c: Cpu, d: Cpu, op: UnaryOp, dst: Operand, w: Width)
    requires SameBody(c, d) && Judge(UnaryInsn(op, dst, w)) != Stops
    ensures var x, y := ExecUnary(c, op, dst, w), ExecUnary(d, op, dst, w);
      x.Done? && y.Done? && SameBody(x.c, y.c) && (op == NEG ==> Same(x.c.flags, y.c.flags))
  {
    hide Same, ReadOperand, WriteOperand, Unary, Readable;
    NotMemoryReadable(c, d, dst, w);
    OperandCongruent(c, d, dst, w);
    var a := ReadOperand(c, dst, w);
    KillerUnary(op, a, w, c.flags, d.flags);
    WriteCongruent(c.(flags := Unary(op, a, w, c.flags).f), d.(flags := Unary(op, a, w, d.flags).f), dst, w,
                   Unary(op, a, w, c.flags).r);
  }

  // ---- what no instruction changes ----

  lemma BodyKeeps(c: Cpu, i: Insn)
    ensures Body(c, i).c.eip == c.eip && Body(c, i).c.mem.lo == c.mem.lo && Body(c, i).c.mem.size == c.mem.size
    ensures Body(c, i).c.fsBase == c.fsBase && Body(c, i).c.gsBase == c.gsBase
    ensures Body(c, i).Fault? ==> Body(c, i).c == c
  {
    hide RegRead, RegWrite, MemRead, MemWrite, EffectiveAddress, InRange, Binary, Unary, Holds, LahfAx, SahfWord, Eflags,
      ReadOperand, WriteOperand, SourceWidth, Discards, Readable;
    match i {
      case AluInsn(op, dst, src, w) =>
        var out := Binary(op, ReadOperand(c, dst, w), ReadOperand(c, src, SourceWidth(op, src, w)), w, c.flags);
        WriteKeeps(c.(flags := out.f), dst, w, out.r);
      case UnaryInsn(op, dst, w) =>
        var out := Unary(op, ReadOperand(c, dst, w), w, c.flags);
        WriteKeeps(c.(flags := out.f), dst, w, out.r);
      case Mov(dst, src, w) => WriteKeeps(c, dst, w, ReadOperand(c, src, w));
      case Setcc(cc, dst) => WriteKeeps(c, dst, W1, Num(Holds(cc, c.flags)));
      case _ =>
    }
  }

  lemma WriteKeeps(c: Cpu, o: Operand, w: Width, v: Word)
    ensures var c' := WriteOperand(c, o, w, v);
      c'.eip == c.eip && c'.mem.lo == c.mem.lo && c'.mem.size == c.mem.size && c'.fsBase == c.fsBase && c'.gsBase == c.gsBase
  {
    WriteCongruent(c, c, o, w, v);
  }

  // ---- one step of the simulation ----

  /** The flags in CPU memory are the interpreter's, or are awaited by a scan that will overwrite them. */
  datatype Mode = Live | Doomed(count0: nat, len0: nat, k: nat)

  predicate InMode(m: Mode, env: Env, eip: Word, pc: Word, count: nat, len: nat, f: Tuple, g: Tuple) {
    match m
    case Live => Same(f, g)
    case Doomed(count0, len0, k) => Scanning(env, eip, pc, count, len, count0, len0, k)
  }

  /** The machine at an instruction of the block, beside the interpreter. */
  predicate AtInsn(t: Track, held: FlagRegs, h: Host, c: Cpu) {
    && h.status == Running && Mapped(h.c.mem) && SameBody(h.c, c)
    && Tracked(t, h.c.flags) && Describes(held, h.x, h.c.flags)
  }

  predicate FaultsAlike(g: Host, c: Cpu) {
    g.status == Faulted && Agree(g.c, c)
  }

  /** With the flags live, the instruction ends alike: same fault, or same state, flags included unless elided. */
  lemma StepLive(i: Insn, t: Track, held: FlagRegs, dead: bool, h: Host, c: Cpu, k: Clobber)
    requires AtInsn(t, held, h, c) && Same(h.c.flags, c.flags)
    requires Emittable(i) && StraightLine(i) && LeaFlat(c, i)
    ensures var g := Run(InsnCode(i, t, held, dead, c.eip), h, k);
      match Body(c, i)
      case Fault(c') => FaultsAlike(g, c')
      case Done(c') =>
        && AtInsn(TrackAfter(i, t, dead), HeldAfter(i, dead), g, c')
        && (!Elided(i, dead) ==> Same(g.c.flags, c'.flags))
  {
    RunInsn(i, t, held, dead, c.eip, h, k);
    var g := Run(InsnCode(i, t, held, dead, c.eip), h, k);
    BodyCongruent(h.c, c, i);
    BodyKeeps(h.c, i);
    BodyKeeps(c, i);
    if Body(h.c, i).Done? {
      TrackingKept(i, t, dead, h, g, c.eip);
      FollowsDone(Body(h.c, i).c, g, h, Elided(i, dead), HeldAfter(i, dead), c.eip);
      if !Elided(i, dead) { SameTransitive(g.c.flags, Body(h.c, i).c.flags, Body(c, i).c.flags); }
    }
    hide Run, InsnCode, Body, Same, Tracked, Describes, TrackAfter, HeldAfter, Elided, LeaFlat, Emittable;
  }

  lemma FollowsDone(d: Cpu, g: Host, h: Host, elided: bool, regs: FlagRegs, pc: Word)
    requires Follows(Done(d), g, h, elided, regs, pc)
    ensures g.status == Running && SameBody(g.c, d) && (!elided ==> Same(g.c.flags, d.flags))
  {
  }

  lemma SameTransitive(f: Tuple, g: Tuple, e: Tuple)
    requires Same(f, g) && Same(g, e)
    ensures Same(f, e)
  {
  }

  /** While a scan waits for its killer, the instruction cannot fault, and the killer makes the flags live again. */
  lemma StepDoomed(i: Insn, t: Track, held: FlagRegs, dead: bool, h: Host, c: Cpu, k: Clobber)
    requires AtInsn(t, held, h, c) && Judge(i) != Stops
    requires Emittable(i) && LeaFlat(c, i)
    ensures var g := Run(InsnCode(i, t, held, dead, c.eip), h, k);
      && Body(c, i).Done?
      && AtInsn(TrackAfter(i, t, dead), HeldAfter(i, dead), g, Body(c, i).c)
      && (Judge(i) == Kills && !Elided(i, dead) ==> Same(g.c.flags, Body(c, i).c.flags))
  {
    JudgedStraight(i);
    RunInsn(i, t, held, dead, c.eip, h, k);
    var g := Run(InsnCode(i, t, held, dead, c.eip), h, k);
    SkippedCongruent(h.c, c, i);
    BodyKeeps(h.c, i);
    TrackingKept(i, t, dead, h, g, c.eip);
    FollowsDone(Body(h.c, i).c, g, h, Elided(i, dead), HeldAfter(i, dead), c.eip);
    if Judge(i) == Kills && !Elided(i, dead) { SameTransitive(g.c.flags, Body(h.c, i).c.flags, Body(c, i).c.flags); }
    hide Run, InsnCode, Body, Same, Tracked, Describes, TrackAfter, HeldAfter, Elided, LeaFlat, Emittable, Judge;
  }

  lemma JudgedStraight(i: Insn)
    requires Judge(i) != Stops
    ensures StraightLine(i)
  {
    hide Count;
  }

  // ---- the block ----

  /** The block and the interpreter end alike: both at a fault, or both past the block's last instruction. */
  predicate EndsAlike(g: Host, out: Step) {
    match out
    case Fault(c) => g.status == Faulted && Agree(g.c, c)
    case Done(c) => (g.status == Ended || g.status == Unsupported) && Agree(g.c, c)
  }

  ghost predicate Gated(env: Env) {
    BoundedReserve(env) && forall i :: env.canEmit(i) ==> Emittable(i)
  }

  lemma LeaveAgrees(pc: Word, how: Status, h: Host, c: Cpu, k: Clobber)
    requires h.status == Running && SameBody(h.c, c) && c.eip == pc && Same(h.c.flags, c.flags) && how in {Ended, Unsupported}
    ensures EndsAlike(Run(Exit(pc, how), h, k), Done(c))
  {
    hide Same;
  }

  lemma BranchAgrees(env: Env, i: Insn, t: Track, held: FlagRegs, h: Host, c: Cpu, k: Clobber)
    requires AtInsn(t, held, h, c) && Same(h.c.flags, c.flags) && !StraightLine(i)
    requires env.decode(c.eip).Fetched? && env.decode(c.eip).i == i
    ensures EndsAlike(Run(TerminatorCode(i, t, held, Plus(c.eip, env.decode(c.eip).length)), h, k), Interpret(env, c, 1))
  {
    hide Same, Tracked, Describes, Holds, JccCode, Plus, Mapped;
    var next := Plus(c.eip, env.decode(c.eip).length);
    var out := c.(eip := NextEip(c, i, next));
    assert Interpret(env, c, 1) == Done(out) by { InterpretOne(env, c); }
    hide Interpret;
    match i {
      case Jmp(rel) =>
      case Jcc(cc, rel) =>
        hide Run;
        RunJcc(cc, t, held, Plus(next, rel), next, h, k);
        SameHolds(cc, h.c.flags, c.flags);
    }
  }

  lemma InterpretOne(env: Env, c: Cpu)
    requires env.decode(c.eip).Fetched? && !StraightLine(env.decode(c.eip).i)
    ensures Interpret(env, c, 1) == Done(c.(eip := NextEip(c, env.decode(c.eip).i, Plus(c.eip, env.decode(c.eip).length))))
  {
    hide NextEip, Plus;
    var out := c.(eip := NextEip(c, env.decode(c.eip).i, Plus(c.eip, env.decode(c.eip).length)));
    assert Interpret(env, out, 0) == Done(out);
  }

  lemma InterpretStep(env: Env, c: Cpu, n: nat)
    requires env.decode(c.eip).Fetched? && StraightLine(env.decode(c.eip).i) && n > 0
    ensures Interpret(env, c, n) == match Body(c, env.decode(c.eip).i)
      case Fault(c') => Fault(c')
      case Done(c') => Interpret(env, c'.(eip := Plus(c.eip, env.decode(c.eip).length)), n - 1)
  {
    hide Body, Plus;
  }

  /** The mode after one instruction. */
  function NextMode(m: Mode, i: Insn, dead: bool, count: nat, len: nat): Mode {
    if Elided(i, dead) then Doomed(count, len, 0)
    else match m
      case Live => Live
      case Doomed(count0, len0, k) => if Judge(i) == Kills then Live else Doomed(count0, len0, k + 1)
  }

  /** An instruction the loop emits: where it leaves the machine, the interpreter and the scan. */
  lemma StepAgrees(env: Env, eip: Word, m: Mode, count: nat, len: nat, size: nat, t: Track, held: FlagRegs,
                   h: Host, c: Cpu, k: Clobber)
    requires Gated(env) && AtInsn(t, held, h, c) && InMode(m, env, eip, c.eip, count, len, h.c.flags, c.flags)
    requires StopBefore(env, eip, c.eip, count, len) == Stay && size <= WORST_CASE_INSN_BYTES
    requires StraightLine(env.decode(c.eip).i) && LeaFlat(c, env.decode(c.eip).i)
    ensures var i := env.decode(c.eip).i;
      var next := Plus(c.eip, env.decode(c.eip).length);
      var dead := WriterDead(env, eip, count, len, i, next);
      var g := Run(InsnCode(i, t, held, dead, c.eip), h, k);
      match Body(c, i)
      case Fault(c') => FaultsAlike(g, c')
      case Done(c') =>
        && AtInsn(TrackAfter(i, t, dead), HeldAfter(i, dead), g, c'.(eip := next))
        && InMode(NextMode(m, i, dead, count, len), env, eip, next, count + 1, len + size, g.c.flags, c'.flags)
  {
    hide Emittable, AtInsn, Scanning, WriterDead, Judge, Elided, LeaFlat, Same, StopBefore, Run, InsnCode, Body, TrackAfter,
      HeldAfter, Plus, Gated, FaultsAlike;
    StayFacts(env, eip, c.eip, count, len);
    var i := env.decode(c.eip).i;
    var next := Plus(c.eip, env.decode(c.eip).length);
    var dead := WriterDead(env, eip, count, len, i, next);
    StaysEmittable(env, eip, c.eip, count, len);
    if Elided(i, dead) {
      ElidedIsDead(i, dead);
      ScanStarts(env, eip, count, len, i, next, size);
    }
    match m {
      case Live =>
        StepLive(i, t, held, dead, h, c, k);
      case Doomed(count0, len0, j) =>
        GatedReserve(env);
        ScanningStays(env, eip, c.eip, count, len, count0, len0, j, size);
        StepDoomed(i, t, held, dead, h, c, k);
    }
    if Body(c, i).Done? {
      AtNext(TrackAfter(i, t, dead), HeldAfter(i, dead), Run(InsnCode(i, t, held, dead, c.eip), h, k), Body(c, i).c, next);
    }
  }

  lemma StaysEmittable(env: Env, eip: Word, pc: Word, count: nat, len: nat)
    requires Gated(env) && StopBefore(env, eip, pc, count, len) == Stay
    ensures Emittable(env.decode(pc).i)
  {
    hide Emittable;
    assert env.canEmit(env.decode(pc).i);
  }

  lemma GatedReserve(env: Env)
    requires Gated(env)
    ensures BoundedReserve(env)
  {
  }

  lemma ElidedIsDead(i: Insn, dead: bool)
    requires Elided(i, dead)
    ensures dead
  {
  }

  lemma AtNext(t: Track, held: FlagRegs, g: Host, c: Cpu, eip: Word)
    requires AtInsn(t, held, g, c)
    ensures AtInsn(t, held, g, c.(eip := eip))
  {
  }

  /** From any instruction of the block on. */
  lemma {:induction false} LoopAgrees(env: Env, eip: Word, m: Mode, count: nat, len: nat, t: Track, held: FlagRegs,
                                      h: Host, c: Cpu, k: Clobber)
    requires Gated(env) && AtInsn(t, held, h, c) && InMode(m, env, eip, c.eip, count, len, h.c.flags, c.flags)
    requires Translate(env, eip, c.eip, count, len, t, held).Translated?
    requires LeasFlat(c, Translate(env, eip, c.eip, count, len, t, held).block)
    ensures var b := Translate(env, eip, c.eip, count, len, t, held).block;
      EndsAlike(RunBlock(b, h, k), Interpret(env, c, BlockLength(b)))
    decreases MAX_INSNS - count
  {
    hide AtInsn, Scanning, WriterDead, Judge, Elided, LeaFlat, Same, StopBefore, Run, InsnCode, Body, TrackAfter,
      HeldAfter, Plus, Gated, TerminatorCode, Agree, InMode, NextMode;
    var b := Translate(env, eip, c.eip, count, len, t, held).block;
    if m.Doomed? { DoomedStays(env, eip, m, count, len, h, c); }
    if StopBefore(env, eip, c.eip, count, len) == Stay {
      StayFacts(env, eip, c.eip, count, len);
      var i, next, size := env.decode(c.eip).i, Plus(c.eip, env.decode(c.eip).length), env.size(c.eip, count);
      if !StraightLine(i) {
        AtRunning(t, held, h, c);
        LiveSame(m, env, eip, c.eip, count, len, h.c.flags, c.flags);
        BranchAgrees(env, i, t, held, h, c, k);
      } else {
        var dead := WriterDead(env, eip, count, len, i, next);
        var g := Run(InsnCode(i, t, held, dead, c.eip), h, k);
        StepAgrees(env, eip, m, count, len, size, t, held, h, c, k);
        InterpretStep(env, c, BlockLength(b));
        match Body(c, i) {
          case Fault(c') =>
            RunBlockLeft(b.rest, g, k);
          case Done(c') =>
            BodyKeeps(c, i);
            LeasFlatKept(c, c'.(eip := next), b.rest);
            LoopAgrees(env, eip, NextMode(m, i, dead, count, len), count + 1, len + size, TrackAfter(i, t, dead),
                       HeldAfter(i, dead), g, c'.(eip := next), k);
        }
      }
    } else {
      StopsKindly(env, eip, c.eip, count, len);
      AtRunning(t, held, h, c);
      LiveSame(m, env, eip, c.eip, count, len, h.c.flags, c.flags);
      LeaveAgrees(c.eip, StopBefore(env, eip, c.eip, count, len).how, h, c, k);
    }
  }

  lemma StayFacts(env: Env, eip: Word, pc: Word, count: nat, len: nat)
    requires StopBefore(env, eip, pc, count, len) == Stay
    ensures count < MAX_INSNS && env.decode(pc).Fetched?
  {
  }

  lemma LiveSame(m: Mode, env: Env, eip: Word, pc: Word, count: nat, len: nat, f: Tuple, g: Tuple)
    requires InMode(m, env, eip, pc, count, len, f, g) && m.Live?
    ensures Same(f, g)
  {
  }

  lemma AtRunning(t: Track, held: FlagRegs, h: Host, c: Cpu)
    requires AtInsn(t, held, h, c)
    ensures h.status == Running && SameBody(h.c, c)
  {
  }

  lemma StopsKindly(env: Env, eip: Word, pc: Word, count: nat, len: nat)
    requires StopBefore(env, eip, pc, count, len).StopAt?
    ensures StopBefore(env, eip, pc, count, len).how in {Ended, Unsupported}
  {
  }

  lemma DoomedStays(env: Env, eip: Word, m: Mode, count: nat, len: nat, h: Host, c: Cpu)
    requires Gated(env) && m.Doomed? && InMode(m, env, eip, c.eip, count, len, h.c.flags, c.flags)
    ensures StopBefore(env, eip, c.eip, count, len) == Stay && StraightLine(env.decode(c.eip).i)
  {
    hide Scanning, StopBefore;
    ScanningStays(env, eip, c.eip, count, len, m.count0, m.len0, m.k, 0);
  }

  lemma RunBlockLeft(b: Block, h: Host, k: Clobber)
    requires h.status != Running
    ensures RunBlock(b, h, k) == h
  {
    hide Run;
    match b {
      case Leave(code) => RunLeft(code, h, k);
      case Branch(i, code) => RunLeft(code, h, k);
      case Then(i, dead, code, rest) => RunLeft(code, h, k); RunBlockLeft(rest, h, k);
    }
  }

  lemma {:induction false} LeasFlatKept(c: Cpu, d: Cpu, b: Block)
    requires c.fsBase == d.fsBase && c.gsBase == d.gsBase && LeasFlat(c, b)
    ensures LeasFlat(d, b)
  {
    if b.Then? { LeasFlatKept(c, d, b.rest); }
  }

  /**
   Running a translated block from any host registers, with helpers leaving
   anything behind, is interpreting as many instructions: the same registers,
   memory and EIP at its end, at either side of its branch, and at a fault in
   its middle, with flags no operation can tell from the interpreter's.
   */
  lemma BlockAgrees(env: Env, prologue: nat, c: Cpu, x: XRegs, p: Nzcv, k: Clobber)
    requires Gated(env) && Mapped(c.mem) && IsBit(c.flags.carryIn)
    requires TranslateBounded(env, c.eip, prologue).Translated?
    requires LeasFlat(c, TranslateBounded(env, c.eip, prologue).block)
    ensures var b := TranslateBounded(env, c.eip, prologue).block;
      BlockLength(b) > 0 && EndsAlike(RunBlock(b, Host(c, x, p, Running, 0), k), Interpret(env, c, BlockLength(b)))
  {
    hide Translate, EndsAlike, RunBlock, Interpret;
    LoopAgrees(env, c.eip, Live, 0, prologue, LOST, NOWHERE, Host(c, x, p, Running, 0), c, k);
  }
}
