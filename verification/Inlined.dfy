/** What the emitted code does without: helper calls where an operation is inline, the flag store where it is dead. */
module Inlined {
  import opened Words
  import opened Flags
  import opened Alu
  import opened Cond
  import opened Guest
  import opened A64
  import opened A64Cond
  import opened Emitter
  import opened EmitterProof
  import opened InsnProof
  import opened Translator
  import FlagMeaning

  /** A call out of the block, or the store of a flag tuple's kind. */
  datatype Part = Helper | FlagStore

  predicate Is(op: HostOp, part: Part) {
    if part.Helper? then op.CallCf? || op.CallAlu? || op.CallCond? || op.CallLahf? || op.CallSahf? else op.StoreKind?
  }

  predicate Has(code: Code, part: Part) {
    match code
    case Emit(op, next) => Is(op, part) || Has(next, part)
    case SkipIfZero(_, body, next) => Has(body, part) || Has(next, part)
    case _ => false
  }

  lemma {:induction false} HasAppend(p: Code, q: Code, part: Part)
    ensures Has(Append(p, q), part) ==> Has(p, part) || Has(q, part)
    ensures Has(p, part) ==> Has(Append(p, q), part)
  {
    match p
    case Emit(_, next) => HasAppend(next, q, part);
    case SkipIfZero(_, _, next) => HasAppend(next, q, part);
    case _ =>
  }

  /** Unfolds any code, as far as it is known. */
  lemma Steps(part: Part)
    ensures forall op: HostOp, next: Code :: Has(Emit(op, next), part) == (Is(op, part) || Has(next, part))
    ensures forall r: XReg, body: Code, next: Code :: Has(SkipIfZero(r, body, next), part) == (Has(body, part) || Has(next, part))
    ensures !Has(Nil, part)
    ensures forall eip: Word, how: Status :: !Has(Exit(eip, how), part)
    ensures forall cc: HostCc, taken: Word, other: Word :: !Has(ExitOn(cc, taken, other), part)
  {
  }

  // ---- the pieces ----

  lemma HasPrepare(o: Operand, w: Width, pc: Word, next: Code, part: Part)
    ensures Has(PrepareIfMemory(o, w, pc, next), part) == Has(next, part)
  {
    if o.Mem? { HasAddress(o.m, Emit(CheckBounds(w, pc), next), part); }
  }

  lemma HasAddress(m: MemRef, next: Code, part: Part)
    ensures Has(AddressParts(m, next), part) == Has(next, part) && Has(Emitter.Address(m, next), part) == Has(next, part)
  {
    HasParts(m, next, part);
    HasParts(m, Emit(LoadSegment(X8, m.seg), Emit(AluReg(ADDW, EA, EA, X8), next)), part);
  }

  lemma HasParts(m: MemRef, next: Code, part: Part)
    ensures Has(AddressParts(m, next), part) == Has(next, part)
  {
    hide Has;
    Steps(part);
  }

  lemma HasLoad(d: XReg, o: Operand, w: Width, next: Code, part: Part)
    ensures Has(LoadPrepared(d, o, w, next), part) == Has(next, part)
  {
  }

  lemma HasStore(o: Operand, w: Width, s: XReg, part: Part)
    ensures !Has(StorePrepared(o, w, s), part)
  {
  }

  lemma HasMask(d: XReg, w: Width, next: Code, part: Part)
    ensures Has(MaskTo(d, w, next), part) == Has(next, part)
  {
  }

  lemma HasRecord(a: XReg, b: XReg, r: XReg, kind: Kind, w: Width, next: Code, part: Part)
    ensures Has(RecordFlags(a, b, r, kind, w, next), part) == (part.FlagStore? || Has(next, part))
  {
    hide Has;
    Steps(part);
  }

  predicate CarryIsInline(last: Known<Kind>) {
    last.Known? && last.v in {Kind.None, Logic, Add, Sub, Explicit, Inc, Dec}
  }

  lemma HasCarry(last: Known<Kind>, next: Code, part: Part)
    ensures Has(ComputeCarry(last, next), part) == ((part.Helper? && !CarryIsInline(last)) || Has(next, part))
  {
    hide Has;
    Steps(part);
  }

  // ---- the instructions ----

  lemma HasPlainFinish(op: Op, dst: Operand, w: Width, dead: bool, part: Part)
    requires IsPlain(op)
    ensures Has(PlainFinish(op, dst, w, dead), part) == (part.FlagStore? && !dead)
  {
    hide Has, MaskTo, RecordFlags, StorePrepared;
    Steps(part);
    var store := if Discards(op) then Nil else StorePrepared(dst, w, X2);
    HasStore(dst, w, X2, part);
    HasRecord(X0, X1, X2, PlainKind(op), w, store, part);
    HasMask(X2, w, if dead then store else RecordFlags(X0, X1, X2, PlainKind(op), w, store), part);
  }

  lemma HasPlainRest(op: Op, dst: Operand, src: Operand, w: Width, dead: bool, part: Part)
    requires IsPlain(op)
    ensures Has(PlainRest(op, dst, src, w, dead), part) == (part.FlagStore? && !dead)
  {
    hide Has, LoadPrepared, PlainFinish, Folded;
    Steps(part);
    var finish := PlainFinish(op, dst, w, dead);
    HasPlainFinish(op, dst, w, dead, part);
    HasLoad(X1, src, w, Emit(AluReg(HostOf(op), X2, X0, X1), finish), part);
  }

  lemma HasPlain(op: Op, dst: Operand, src: Operand, w: Width, dead: bool, pc: Word, part: Part)
    requires IsPlain(op)
    ensures Has(PlainCode(op, dst, src, w, dead, pc), part) == (part.FlagStore? && !dead)
  {
    hide Has, PrepareIfMemory, LoadPrepared, PlainFinish, PlainRest;
    HasPlainRest(op, dst, src, w, dead, part);
    var rest := PlainRest(op, dst, src, w, dead);
    HasLoad(X0, dst, w, rest, part);
    HasPrepare(src, w, pc, LoadPrepared(X0, dst, w, rest), part);
    HasPrepare(dst, w, pc, PrepareIfMemory(src, w, pc, LoadPrepared(X0, dst, w, rest)), part);
  }

  lemma HasShiftBody(op: Op, dst: Operand, w: Width, dead: bool, part: Part)
    requires IsShiftOp(op)
    ensures Has(ShiftBody(op, dst, w, dead), part) == (part.FlagStore? && !dead)
  {
    hide Has, MaskTo, RecordFlags, StorePrepared;
    Steps(part);
    var store := StorePrepared(dst, w, X2);
    var record := if dead then store else RecordFlags(X0, X1, X2, ShiftKind(op), w, store);
    HasStore(dst, w, X2, part);
    HasRecord(X0, X1, X2, ShiftKind(op), w, store, part);
    HasMask(X2, w, record, part);
  }

  /** A shift by an immediate that comes to nothing is no instruction at all. */
  predicate ShiftsNothing(src: Operand) {
    match src
    case Imm(v) => v % 32 == 0
    case Reg(_) => false
    case Mem(_) => true
  }

  lemma HasShift(op: Op, dst: Operand, src: Operand, w: Width, dead: bool, pc: Word, part: Part)
    requires IsShiftOp(op)
    ensures Has(ShiftCode(op, dst, src, w, dead, pc), part) == (part.FlagStore? && !dead && !ShiftsNothing(src))
  {
    hide Has, PrepareIfMemory, ShiftBody, LoadPrepared;
    Steps(part);
    var body := ShiftBody(op, dst, w, dead);
    HasShiftBody(op, dst, w, dead, part);
    match src {
      case Imm(v) =>
        var code := Emit(MovImm(X1, Count(v)), body);
        HasLoad(X0, dst, w, code, part);
        HasPrepare(dst, w, pc, if Count(v) == 0 then Nil else LoadPrepared(X0, dst, w, code), part);
      case Reg(r) =>
        var code := Emit(LoadReg(X1, r, W1), Emit(AluImm(ANDW, X1, X1, 0x1F), SkipIfZero(X1, body, Nil)));
        HasLoad(X0, dst, w, code, part);
        HasPrepare(dst, w, pc, LoadPrepared(X0, dst, w, code), part);
      case Mem(_) => HasPrepare(dst, w, pc, Nil, part);
    }
  }

  lemma HasHelper(op: Op, dst: Operand, src: Operand, w: Width, pc: Word, part: Part)
    ensures Has(HelperCode(op, dst, src, w, pc), part) == part.Helper?
  {
    hide Has, PrepareIfMemory, LoadPrepared, StorePrepared;
    Steps(part);
    var store := if Discards(op) then Nil else StorePrepared(dst, w, X0);
    var call := Emit(CallAlu(op, w), store);
    HasStore(dst, w, X0, part);
    var second := LoadPrepared(X2, src, SourceWidth(op, src, w), call);
    HasLoad(X2, src, SourceWidth(op, src, w), call, part);
    HasLoad(X1, dst, w, second, part);
    HasPrepare(dst, w, pc, LoadPrepared(X1, dst, w, second), part);
    HasPrepare(src, w, pc, PrepareIfMemory(dst, w, pc, LoadPrepared(X1, dst, w, second)), part);
  }

  lemma HasNot(dst: Operand, w: Width, last: Known<Kind>, dead: bool, pc: Word, part: Part)
    ensures !Has(UnaryCode(NOT, dst, w, last, dead, pc), part)
  {
    hide Has, PrepareIfMemory, LoadPrepared, StorePrepared, MaskTo;
    Steps(part);
    HasStore(dst, w, X0, part);
    HasMask(X0, w, StorePrepared(dst, w, X0), part);
    var invert := Emit(AluImm(EORW, X0, X0, 0xFFFF_FFFF), MaskTo(X0, w, StorePrepared(dst, w, X0)));
    HasLoad(X0, dst, w, invert, part);
    HasPrepare(dst, w, pc, LoadPrepared(X0, dst, w, invert), part);
  }

  lemma HasNeg(dst: Operand, w: Width, last: Known<Kind>, dead: bool, pc: Word, part: Part)
    ensures Has(UnaryCode(NEG, dst, w, last, dead, pc), part) == (part.FlagStore? && !dead)
  {
    hide Has, PrepareIfMemory, LoadPrepared, StorePrepared, MaskTo, RecordFlags;
    Steps(part);
    var store := StorePrepared(dst, w, X1);
    HasStore(dst, w, X1, part);
    HasRecord(X2, X0, X1, Sub, w, store, part);
    var record := if dead then store else Emit(MovImm(X2, 0), RecordFlags(X2, X0, X1, Sub, w, store));
    HasMask(X1, w, record, part);
    var negate := Emit(MovImm(X1, 0), Emit(AluReg(SUBW, X1, X1, X0), MaskTo(X1, w, record)));
    HasLoad(X0, dst, w, negate, part);
    HasPrepare(dst, w, pc, LoadPrepared(X0, dst, w, negate), part);
  }

  lemma HasCounting(op: UnaryOp, dst: Operand, w: Width, last: Known<Kind>, dead: bool, pc: Word, part: Part)
    requires op == INC || op == DEC
    ensures Has(UnaryCode(op, dst, w, last, dead, pc), part) == (!dead && (part.FlagStore? || !CarryIsInline(last)))
  {
    hide Has, PrepareIfMemory, LoadPrepared, StorePrepared, MaskTo, RecordFlags, ComputeCarry, CarryIsInline;
    Steps(part);
    var store := StorePrepared(dst, w, X1);
    HasStore(dst, w, X1, part);
    HasRecord(X0, X2, X1, UnaryKind(op), w, store, part);
    var record := if dead then store else Emit(MovImm(X2, 1), RecordFlags(X0, X2, X1, UnaryKind(op), w, store));
    HasMask(X1, w, record, part);
    var count := Emit(AluImm(if op == INC then ADDW else SUBW, X1, X0, 1), MaskTo(X1, w, record));
    HasLoad(X0, dst, w, count, part);
    var step := LoadPrepared(X0, dst, w, count);
    HasPrepare(dst, w, pc, step, part);
    HasPrepare(dst, w, pc, Emit(StoreCarryIn(CARRY), step), part);
    HasCarry(last, PrepareIfMemory(dst, w, pc, Emit(StoreCarryIn(CARRY), step)), part);
  }

  lemma HasMov(dst: Operand, src: Operand, w: Width, pc: Word, part: Part)
    ensures !Has(MovCode(dst, src, w, pc), part)
  {
    hide Has, PrepareIfMemory, LoadPrepared, StorePrepared;
    Steps(part);
    HasStore(dst, w, X0, part);
    HasLoad(X0, src, w, StorePrepared(dst, w, X0), part);
    var code := match (dst, src)
      case (Mem(_), Imm(v)) => Emit(StoreMemImm(w, v), Nil)
      case (Reg(r), Imm(v)) => Emit(StoreRegImm(r, w, v), Nil)
      case _ => LoadPrepared(X0, src, w, StorePrepared(dst, w, X0));
    HasPrepare(src, w, pc, code, part);
    HasPrepare(dst, w, pc, PrepareIfMemory(src, w, pc, code), part);
  }

  // ---- conditions ----

  /** A condition the translator reads off the tuple itself: of a known kind and width, and not one it leaves to x86p_cond. */
  predicate ConditionIsInline(cc: Cc, t: Track) {
    && t.kind.Known? && t.w.Known? && t.kind.v != Kind.None && t.kind.v != Explicit && !(t.kind.v == Add && cc in {BE, A})
    && (t.kind.v in {Inc, Dec, Kind.Shl, Kind.Shr, Sar} ==> cc in {Z, NZ, S, NS, P, NP})
  }

  lemma HasAligned(d: XReg, field: FlagField, held: Held, shift: Word, next: Code, part: Part)
    ensures Has(LoadAligned(d, field, held, shift, next), part) == Has(next, part)
  {
  }

  lemma HasOperands(regs: FlagRegs, shift: Word, next: Code, part: Part)
    ensures Has(LoadOperands(regs, shift, next), part) == Has(next, part)
  {
    hide LoadAligned;
    var a := if regs.a == In(X1) && regs.b == In(X0) then InMemory else regs.a;
    HasAligned(X0, FA, a, shift, next, part);
    HasAligned(X1, FB, regs.b, shift, next, part);
    HasAligned(X1, FB, regs.b, shift, LoadAligned(X0, FA, a, shift, next), part);
    HasAligned(X0, FA, a, shift, LoadAligned(X1, FB, regs.b, shift, next), part);
  }

  lemma HasLowering(cc: Cc, t: Track, held: FlagRegs, part: Part)
    ensures var low := Lowered(cc, t, held);
      (low.Refused? <==> !ConditionIsInline(cc, t)) && (low.Compare? ==> !Has(low.code, part))
  {
    if t.kind.Known? && t.w.Known? {
      RefusedExactly(cc, t.kind.v, t.w.v, held);
      LowerHasNone(cc, t.kind.v, t.w.v, held, part);
    }
    hide Lower;
  }

  lemma LowerHasNone(cc: Cc, kind: Kind, w: Width, regs: FlagRegs, part: Part)
    ensures Lower(cc, kind, w, regs).Compare? ==> !Has(Lower(cc, kind, w, regs).code, part)
  {
    hide Has, LoadOperands, LoadAligned, AlignShift;
    Steps(part);
    var shift := AlignShift(w);
    HasOperands(regs, shift, Emit(CmpReg(X0, X1), Nil), part);
    HasOperands(regs, shift, Emit(CmnReg(X0, X1), Nil), part);
    HasAligned(X0, FR, regs.r, shift, Emit(CmpImm(X0, 0), Nil), part);
  }

  lemma HasSetcc(cc: Cc, dst: Operand, t: Track, held: FlagRegs, pc: Word, part: Part)
    ensures Has(SetccCode(cc, dst, t, held, pc), part) == (part.Helper? && !ConditionIsInline(cc, t))
  {
    hide Has, ConditionIsInline, Lowered, StorePrepared, Append, SetccStore;
    Steps(part);
    HasLowering(cc, t, held, part);
    HasSetccStore(dst, pc, part);
    HasAppend(ConditionValue(cc, t, held), SetccStore(dst, pc), part);
    var low := Lowered(cc, t, held);
    if low.Compare? { HasAppend(low.code, Emit(CSet(low.host, X0), Nil), part); }
  }

  lemma HasSetccStore(dst: Operand, pc: Word, part: Part)
    ensures !Has(SetccStore(dst, pc), part)
  {
    HasStore(dst, W1, X0, part);
    if dst.Mem? { HasAddress(dst.m, Emit(CheckBounds(W1, pc), Emit(StoreMem(W1, CARRY), Nil)), part); }
    hide Emitter.Address, StorePrepared;
  }

  // ---- the block ----

  /** The instructions whose emitter stores a tuple of its own. */
  predicate StoresFlags(i: Insn) {
    || (i.AluInsn? && i.op in {ADD, SUB, CMP, OR, AND, TEST, XOR})
    || (i.AluInsn? && i.op in {SHL, SHR, SAR} && !ShiftsNothing(i.src))
    || (i.UnaryInsn? && i.un != NOT)
  }

  /** What is left to the shared helpers: rotates and operations with a carry, LAHF and SAHF, and what the tracked kind does not settle. */
  predicate NeedsHelper(i: Insn, t: Track, dead: bool) {
    match i
    case AluInsn(op, _, _, _) => op in {ADC, SBB, ROL, ROR, RCL, RCR}
    case UnaryInsn(op, _, _) => (op == INC || op == DEC) && !dead && !CarryIsInline(t.kind)
    case Setcc(cc, _) => !ConditionIsInline(cc, t)
    case Jcc(cc, _) => !ConditionIsInline(cc, t)
    case Lahf => true
    case Sahf => true
    case _ => false
  }

  /** The code of an instruction calls a helper exactly where one is needed, and stores a tuple exactly where its flags are not dead. */
  lemma InlinedExactly(i: Insn, t: Track, held: FlagRegs, dead: bool, pc: Word)
    requires StraightLine(i)
    ensures var code := InsnCode(i, t, held, dead, pc);
      && (Has(code, Helper) <==> NeedsHelper(i, t, dead))
      && (Has(code, FlagStore) <==> StoresFlags(i) && !dead)
  {
    hide Has, CarryIsInline, ConditionIsInline, PlainCode, ShiftCode, HelperCode, UnaryCode, MovCode, SetccCode, AddressParts, ShiftsNothing;
    forall part: Part ensures Has(InsnCode(i, t, held, dead, pc), part)
      == if part.Helper? then NeedsHelper(i, t, dead) else StoresFlags(i) && !dead
    {
      Steps(part);
      match i {
        case AluInsn(op, dst, src, w) =>
          if IsPlain(op) { HasPlain(op, dst, src, w, dead, pc, part); }
          else if IsShiftOp(op) { HasShift(op, dst, src, w, dead, pc, part); }
          else { HasHelper(op, dst, src, w, pc, part); }
        case UnaryInsn(op, dst, w) =>
          if op == INC || op == DEC { HasCounting(op, dst, w, t.kind, dead, pc, part); }
          else if op == NEG { HasNeg(dst, w, t.kind, dead, pc, part); }
          else { HasNot(dst, w, t.kind, dead, pc, part); }
        case Mov(dst, src, w) => HasMov(dst, src, w, pc, part);
        case Lea(r, m) => HasParts(m, Emit(StoreReg(r, W4, EA), Nil), part);
        case Setcc(cc, dst) => HasSetcc(cc, dst, t, held, pc, part);
        case _ =>
      }
    }
  }

  /** A branch calls a helper exactly for a condition the tracked kind does not settle. */
  lemma BranchInlinedExactly(i: Insn, t: Track, held: FlagRegs, next: Word)
    requires !StraightLine(i)
    ensures var code := TerminatorCode(i, t, held, next);
      (Has(code, Helper) <==> NeedsHelper(i, t, false)) && !Has(code, FlagStore)
  {
    hide Has, ConditionIsInline, Lowered, Append;
    match i {
      case Jcc(cc, rel) =>
        forall part: Part ensures Has(TerminatorCode(i, t, held, next), part) == (part.Helper? && NeedsHelper(i, t, false)) {
          Steps(part);
          HasLowering(cc, t, held, part);
          var low := Lowered(cc, t, held);
          if low.Compare? { HasAppend(low.code, ExitOn(low.host, Plus(next, rel), next), part); }
        }
      case Jmp(_) => Steps(Helper); Steps(FlagStore);
    }
  }

  /** After an instruction that stores its tuple the translator knows the tuple's kind and width, and holds it in registers for the next. */
  lemma KnowsWhatIsStored(c: Cpu, i: Insn, t: Track)
    requires StoresFlags(i) && !(i.AluInsn? && i.src.Reg? && i.op in {SHL, SHR, SAR}) && Body(c, i).Done?
    ensures var f := Body(c, i).c.flags;
      TrackAfter(i, t, false) == Track(Known(f.kind), Known(f.w))
      && HeldAfter(i, false).a.In? && HeldAfter(i, false).b.In? && HeldAfter(i, false).r.In?
  {
    hide ReadOperand, WriteOperand, Readable, EffectiveAddress, Lo, Cf, Binary, Unary, SourceWidth;
    match i {
      case AluInsn(op, dst, src, w) =>
        var b := ReadOperand(c, src, SourceWidth(op, src, w));
        var out := Binary(op, ReadOperand(c, dst, w), b, w, c.flags);
        WriteKeepsFlags(c.(flags := out.f), dst, w, out.r);
        if IsShiftOp(op) { ImmediateCount(c, op, src, w); }
        KindRecorded(op, ReadOperand(c, dst, w), b, w, c.flags);
      case UnaryInsn(op, dst, w) =>
        var out := Unary(op, ReadOperand(c, dst, w), w, c.flags);
        WriteKeepsFlags(c.(flags := out.f), dst, w, out.r);
        UnaryRecorded(op, ReadOperand(c, dst, w), w, c.flags);
      case _ =>
    }
  }

  lemma ImmediateCount(c: Cpu, op: Op, src: Operand, w: Width)
    requires IsShiftOp(op) && src.Imm?
    ensures Count(Lo(ReadOperand(c, src, SourceWidth(op, src, w)), w)) == src.v % 32
  {
    hide Lo;
    FlagMeaning.CountMasked(src.v, w);
    FlagMeaning.CountMasked(Lo(src.v, w), w);
  }

  lemma KindRecorded(op: Op, a: Word, b: Word, w: Width, f: Tuple)
    ensures IsPlain(op) ==> Binary(op, a, b, w, f).f.kind == PlainKind(op) && Binary(op, a, b, w, f).f.w == w
    ensures IsShiftOp(op) && Count(Lo(b, w)) != 0 ==> Binary(op, a, b, w, f).f.kind == ShiftKind(op) && Binary(op, a, b, w, f).f.w == w
  {
    hide Lo, Cf, PlainResult, ShiftResult;
  }

  lemma UnaryRecorded(op: UnaryOp, a: Word, w: Width, f: Tuple)
    ensures op != NOT ==> Unary(op, a, w, f).f.kind == UnaryKind(op) && Unary(op, a, w, f).f.w == w
  {
    hide Lo, Cf;
  }

  /** What stores nothing leaves what was known; the operations on the whole word leave an explicit tuple. */
  lemma KnowsWhatWasKept(i: Insn, t: Track)
    requires StraightLine(i)
    ensures i.Mov? || i.Lea? || i.Setcc? || i.Nop? || i.Lahf? || (i.UnaryInsn? && i.un == NOT) ==> forall dead :: TrackAfter(i, t, dead) == t
    ensures StoresFlags(i) && !(i.AluInsn? && i.src.Reg? && i.op in {SHL, SHR, SAR}) ==> TrackAfter(i, t, true) == t
    ensures i.Sahf? || (i.AluInsn? && (i.op == ADC || i.op == SBB)) ==> TrackAfter(i, t, false).kind == Known(Explicit)
  {
  }
}
