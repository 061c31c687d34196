/** Each emitted instruction does what the interpreter does, with the flag tuple recorded or left alone. */
module EmitterProof {
  import opened Words
  import opened Flags
  import opened Alu
  import opened Guest
  import opened A64
  import opened A64Cond
  import opened Emitter
  import opened EmitterFacts

  /** What the translator knows is true of the tuple actually in CPU memory. */
  predicate Tracked(t: Track, f: Tuple) {
    && IsBit(f.carryIn)
    && (t.kind.Known? ==> f.kind == t.kind.v && WellFormed(f))
    && (t.w.Known? ==> f.w == t.w.v)
  }

  /** The same guest state but for flags and EIP. */
  predicate SameBody(c: Cpu, d: Cpu) {
    c.regs == d.regs && c.mem == d.mem && c.fsBase == d.fsBase && c.gsBase == d.gsBase
  }

  // ---- plain operations ----

  lemma HostMatchesPlain(op: Op, a: Word, b: Word, w: Width)
    requires IsPlain(op)
    ensures Lo(HostResult(HostOf(op), a, b), w) == PlainResult(op, a, b, w)
  {
    hide And, Or, Xor, Lo, Lo32, Words.Shl, Words.Shr, Pow2, Signed;
    LoLo32(a + b, w);
    LoLo32(a - b, w);
  }

  /** The folded immediate, whichever of the two encodings carries it, is the operation on the immediate. */
  lemma FoldIsExact(alu: HostAlu, a: Word, imm: Word)
    requires alu == ADDW || alu == SUBW
    ensures var e := EncodeAddSub(alu, imm); e.AddSub? ==> HostResult(e.alu, a, e.imm) == HostResult(alu, a, imm)
  {
    hide Lo32;
    if imm > 0xFFF {
      Negated(imm);
      Lo32Shift(a + imm);
      Lo32Shift(a - imm);
    }
  }

  predicate IsField(field: nat) {
    field < 4096
  }

  /** A value the immediate field says: twelve bits, shifted by twelve or not. */
  ghost predicate Encodes(imm: Word) {
    exists field: nat :: IsField(field) && (imm == field || imm == 0x1000 * field)
  }

  /**
   The immediate chosen is one the instruction can say, and there is one exactly
   when the value or a small negation can be said; dead ADD, SUB and CMP by such
   a value, and nothing else, do without a register for it.
   */
  lemma FoldsExactly(op: Op, src: Operand, w: Width, dead: bool)
    requires IsPlain(op)
    ensures var e := Folded(op, src, w, dead);
      && (e.AddSub? ==> Encodes(e.imm))
      && (e.AddSub? <==> dead && src.Imm? && (op == ADD || op == SUB || op == CMP)
                         && (Encodes(Lo(src.v, w)) || Lo(src.v, w) >= 0xFFFF_F001))
  {
    if src.Imm? {
      hide Lo32, Lo;
      var imm := Lo(src.v, w);
      if imm > 0 { Negated(imm); }
      if imm <= 0xFFF {
        assert IsField(imm);
      } else if imm >= 0xFFFF_F001 {
        assert IsField(0x1_0000_0000 - imm);
      } else if imm % 0x1000 == 0 && imm / 0x1000 <= 0xFFF {
        assert IsField(imm / 0x1000) && imm == 0x1000 * (imm / 0x1000);
      }
    }
  }

  lemma Negated(imm: Word)
    requires imm > 0
    ensures Lo32(0 - imm) == 0x1_0000_0000 - imm
  {
  }

  lemma RunPlainFinish(op: Op, dst: Operand, w: Width, dead: bool, h: Host, k: Clobber)
    requires h.status == Running && IsPlain(op) && Prepared(h, dst)
    ensures var r := Lo(h.x.x2, w); var g := Run(PlainFinish(op, dst, w, dead), h, k);
      var f := if dead then h.c.flags else Tuple(PlainKind(op), h.x.x0, h.x.x1, r, w, h.c.flags.carryIn);
      var c := h.c.(flags := f);
      && g.status == Running
      && g.c == (if Discards(op) then c else WriteOperand(c, dst, w, r))
      && g.x == h.x.(x2 := r)
  {
    hide Run, Lo, EffectiveAddress, WriteOperand, MaskTo, RecordFlags, StorePrepared;
    var store := if Discards(op) then Nil else StorePrepared(dst, w, X2);
    var h1 := RunMask(X2, w, if dead then store else RecordFlags(X0, X1, X2, PlainKind(op), w, store), h, k);
    var h2 := h1;
    if !dead {
      h2 := RunRecord(X0, X1, X2, PlainKind(op), w, store, h1, k);
    }
    AddressIgnoresFlags(h.c, h2.c, dst);
    if Discards(op) { RunNil(h2, k); } else { RunStore(dst, w, X2, h2, k); }
  }

  lemma AddressIgnoresFlags(c: Cpu, d: Cpu, o: Operand)
    requires SameBody(c, d)
    ensures o.Mem? ==> EffectiveAddress(c, o.m) == EffectiveAddress(d, o.m)
  {
  }

  lemma WriteIgnoresFlags(c: Cpu, f: Tuple, o: Operand, w: Width, v: Word)
    ensures WriteOperand(c.(flags := f), o, w, v) == WriteOperand(c, o, w, v).(flags := f)
  {
    hide RegWrite, MemWrite, EffectiveAddress;
    AddressIgnoresFlags(c, c.(flags := f), o);
  }

  lemma WriteKeepsFlags(c: Cpu, o: Operand, w: Width, v: Word)
    ensures WriteOperand(c, o, w, v).flags == c.flags
  {
    hide RegWrite, MemWrite, EffectiveAddress;
  }

  /** Both operands prepared, or faulted exactly where the interpreter faults. */
  lemma RunPrepareBoth(dst: Operand, src: Operand, w: Width, pc: Word, next: Code, h: Host, k: Clobber) returns (g: Host)
    requires h.status == Running && Mapped(h.c.mem) && NotBothMemory(dst, src)
    ensures var done := Run(PrepareIfMemory(dst, w, pc, PrepareIfMemory(src, w, pc, next)), h, k);
      if Readable(h.c, dst, w) && Readable(h.c, src, w)
      then done == Run(next, g, k) && SameButAddress(h, g) && Prepared(g, dst) && Prepared(g, src)
      else FaultedAt(h, done, pc)
  {
    hide Run, PrepareIfMemory, EffectiveAddress, InRange, Mapped;
    g := RunPrepare(dst, w, pc, PrepareIfMemory(src, w, pc, next), h, k);
    if Readable(h.c, dst, w) {
      g := RunPrepare(src, w, pc, next, g, k);
    }
  }

  /** The result of an instruction with the tuple it found, or the one it recorded, in place of the interpreter's. */
  function WithFlags(c: Cpu, dead: bool, before: Tuple): Cpu {
    c.(flags := if dead then before else c.flags.(carryIn := before.carryIn))
  }

  /**
   The emitted code and the interpreter's step end alike: faulted at the
   instruction, or still in the block with the interpreter's registers and
   memory, its flags recorded -- and still in the registers named -- or left
   as they were when the store is elided.
   */
  predicate Agrees(out: Step, g: Host, h: Host, dead: bool, regs: FlagRegs, pc: Word) {
    match out
    case Fault(_) => FaultedAt(h, g, pc)
    case Done(c) =>
      && g.status == Running && g.c == WithFlags(c, dead, h.c.flags)
      && (!dead ==> Describes(regs, g.x, c.flags))
  }

  /** The state after a plain operation on `a` and `b`, with the tuple recorded unless dead. */
  function AfterPlain(c: Cpu, op: Op, dst: Operand, a: Word, b: Word, w: Width, dead: bool): Cpu
    requires IsPlain(op)
  {
    var r := PlainResult(op, a, b, w);
    var c' := c.(flags := if dead then c.flags else Tuple(PlainKind(op), a, b, r, w, c.flags.carryIn));
    if Discards(op) then c' else WriteOperand(c', dst, w, r)
  }

  lemma RunFolded(op: Op, dst: Operand, src: Operand, w: Width, h: Host, k: Clobber)
    requires h.status == Running && IsPlain(op) && Prepared(h, dst) && Folded(op, src, w, true).AddSub?
    ensures var g := Run(PlainRest(op, dst, src, w, true), h, k);
      g.status == Running && g.c == AfterPlain(h.c, op, dst, h.x.x0, Lo(src.v, w), w, true)
  {
    hide Run, Lo, WriteOperand, PlainFinish, HostResult, PlainResult, Prepared, EncodeAddSub, Do;
    var e := Folded(op, src, w, true);
    var b := Lo(src.v, w);
    HostMatchesPlain(op, h.x.x0, b, w);
    FoldIsExact(HostOf(op), h.x.x0, b);
    var v := HostResult(e.alu, h.x.x0, e.imm);
    RunAluImm(e.alu, X2, X0, e.imm, PlainFinish(op, dst, w, true), h, k);
    PreparedKept(h, X2, v, dst);
    RunPlainFinish(op, dst, w, true, h.(x := Set(h.x, X2, v)), k);
  }

  lemma RunUnfolded(op: Op, dst: Operand, src: Operand, w: Width, dead: bool, h: Host, k: Clobber)
    requires h.status == Running && IsPlain(op) && Prepared(h, dst) && Prepared(h, src)
    requires Folded(op, src, w, dead).NoEncoding?
    ensures var g := Run(PlainRest(op, dst, src, w, dead), h, k);
      var b := Lo(ReadOperand(h.c, src, w), w);
      && g.status == Running && g.c == AfterPlain(h.c, op, dst, h.x.x0, b, w, dead)
      && g.x.x0 == h.x.x0 && g.x.x1 == b && g.x.x2 == PlainResult(op, h.x.x0, b, w)
  {
    hide Run, Lo, WriteOperand, PlainFinish, HostResult, PlainResult, Prepared, LoadPrepared, ReadOperand, Do, Folded;
    var b := Lo(ReadOperand(h.c, src, w), w);
    HostMatchesPlain(op, h.x.x0, b, w);
    var finish := PlainFinish(op, dst, w, dead);
    var h1 := RunLoad(X1, src, w, Emit(AluReg(HostOf(op), X2, X0, X1), finish), h, k);
    var v := HostResult(HostOf(op), h.x.x0, b);
    RunAluReg(HostOf(op), X2, X0, X1, finish, h1, k);
    PreparedKept(h, X1, b, dst);
    PreparedKept(h1, X2, v, dst);
    RunPlainFinish(op, dst, w, dead, h1.(x := Set(h1.x, X2, v)), k);
  }

  lemma RunPlainRest(op: Op, dst: Operand, src: Operand, w: Width, dead: bool, h: Host, k: Clobber)
    requires h.status == Running && IsPlain(op) && Prepared(h, dst) && Prepared(h, src)
    ensures var g := Run(PlainRest(op, dst, src, w, dead), h, k);
      var b := Lo(ReadOperand(h.c, src, w), w);
      && g.status == Running && g.c == AfterPlain(h.c, op, dst, h.x.x0, b, w, dead)
      && (!dead ==> g.x.x0 == h.x.x0 && g.x.x1 == b && g.x.x2 == PlainResult(op, h.x.x0, b, w))
  {
    hide Run, Lo, AfterPlain, PlainRest, PlainResult, Prepared, EncodeAddSub;
    if Folded(op, src, w, dead).AddSub? {
      RunFolded(op, dst, src, w, h, k);
    } else {
      RunUnfolded(op, dst, src, w, dead, h, k);
    }
  }

  lemma SourceWidthPlain(op: Op, src: Operand, w: Width)
    requires IsPlain(op)
    ensures SourceWidth(op, src, w) == w
  {
  }

  /** The interpreter's plain operation, with the masked operands named. */
  lemma ExecPlain(c: Cpu, op: Op, dst: Operand, src: Operand, w: Width, dead: bool)
    requires IsPlain(op) && Readable(c, dst, w) && Readable(c, src, w)
    ensures var a, b := Lo(ReadOperand(c, dst, w), w), Lo(ReadOperand(c, src, w), w);
      var out := ExecAlu(c, op, dst, src, w);
      && out.Done? && WithFlags(out.c, dead, c.flags) == AfterPlain(c, op, dst, a, b, w, dead)
      && out.c.flags.a == a && out.c.flags.b == b && out.c.flags.r == PlainResult(op, a, b, w)
  {
    hide Lo, PlainResult, Cf, WriteOperand, ReadOperand, Readable;
    var a, b := Lo(ReadOperand(c, dst, w), w), Lo(ReadOperand(c, src, w), w);
    var r := PlainResult(op, a, b, w);
    var out := Record(c.flags, PlainKind(op), a, b, r, w);
    WriteIgnoresFlags(c, c.flags, dst, w, r);
    WriteIgnoresFlags(c, out, dst, w, r);
    WriteIgnoresFlags(c, Tuple(PlainKind(op), a, b, r, w, c.flags.carryIn), dst, w, r);
  }

  lemma RunPlain(op: Op, dst: Operand, src: Operand, w: Width, dead: bool, pc: Word, h: Host, k: Clobber)
    requires h.status == Running && Mapped(h.c.mem) && IsPlain(op) && NotBothMemory(dst, src)
    ensures Agrees(ExecAlu(h.c, op, dst, src, w), Run(PlainCode(op, dst, src, w, dead, pc), h, k), h, dead,
                   FlagRegs(In(X0), In(X1), In(X2)), pc)
  {
    hide Run, Lo, EffectiveAddress, PlainRest, PlainResult, InRange, Mapped, LoadPrepared, PrepareIfMemory,
      Binary, ReadOperand, WriteOperand, Prepared, Do, Discards, IsPlain, Readable, WithFlags, AfterPlain, Agrees;
    SourceWidthPlain(op, src, w);
    var rest := PlainRest(op, dst, src, w, dead);
    var h1 := RunPrepareBoth(dst, src, w, pc, LoadPrepared(X0, dst, w, rest), h, k);
    if Readable(h.c, dst, w) && Readable(h.c, src, w) {
      RunPlainReady(op, dst, src, w, dead, pc, h, h1, k);
    } else {
      FaultAgrees(h.c, Run(PlainCode(op, dst, src, w, dead, pc), h, k), h, dead, FlagRegs(In(X0), In(X1), In(X2)), pc);
    }
  }

  lemma RunPlainReady(op: Op, dst: Operand, src: Operand, w: Width, dead: bool, pc: Word, h: Host, h1: Host, k: Clobber)
    requires h.status == Running && IsPlain(op)
    requires SameButAddress(h, h1) && Prepared(h1, dst) && Prepared(h1, src)
    requires Readable(h.c, dst, w) && Readable(h.c, src, w)
    ensures Agrees(ExecAlu(h.c, op, dst, src, w), Run(LoadPrepared(X0, dst, w, PlainRest(op, dst, src, w, dead)), h1, k),
                   h, dead, FlagRegs(In(X0), In(X1), In(X2)), pc)
  {
    hide Run, Lo, EffectiveAddress, PlainRest, PlainResult, LoadPrepared,
      Binary, ReadOperand, WriteOperand, Prepared, Do, Discards, IsPlain, Readable, AfterPlain, ExecAlu, WithFlags;
    var h2 := RunLoad(X0, dst, w, PlainRest(op, dst, src, w, dead), h1, k);
    PreparedKept(h1, X0, h2.x.x0, dst);
    PreparedKept(h1, X0, h2.x.x0, src);
    RunPlainRest(op, dst, src, w, dead, h2, k);
    ExecPlain(h.c, op, dst, src, w, dead);
  }

  lemma FaultAgrees(c: Cpu, g: Host, h: Host, dead: bool, regs: FlagRegs, pc: Word)
    requires FaultedAt(h, g, pc)
    ensures Agrees(Fault(c), g, h, dead, regs, pc)
  {
  }

  lemma PreparedKept(h: Host, d: XReg, v: Word, o: Operand)
    requires Prepared(h, o) && d != EA
    ensures Prepared(h.(x := Set(h.x, d, v)), o)
  {
  }

  // ---- the common form of every instruction's agreement ----

  /** Follows: the emitted code ends as the interpreter's step does, up to a dead `carryIn` and elided stores. */
  predicate Follows(out: Step, g: Host, h: Host, elided: bool, regs: FlagRegs, pc: Word) {
    match out
    case Fault(_) => FaultedAt(h, g, pc)
    case Done(c) =>
      && g.status == Running && g.c == c.(flags := g.c.flags)
      && (if elided then g.c.flags == h.c.flags else Same(g.c.flags, c.flags) && Describes(regs, g.x, g.c.flags))
      && (IsBit(h.c.flags.carryIn) ==> IsBit(g.c.flags.carryIn))
  }

  lemma FaultFollows(c: Cpu, g: Host, h: Host, elided: bool, regs: FlagRegs, pc: Word)
    requires FaultedAt(h, g, pc)
    ensures Follows(Fault(c), g, h, elided, regs, pc)
  {
  }

  lemma AgreesFollows(out: Step, g: Host, h: Host, dead: bool, regs: FlagRegs, pc: Word)
    requires Agrees(out, g, h, dead, regs, pc)
    requires out.Done? ==> !CarryInIsLive(out.c.flags.kind) || out.c.flags == h.c.flags
    ensures Follows(out, g, h, dead, regs, pc)
  {
  }
}
