/**
 The emitted sequences, one guest instruction at a time, in the order the
 ARM64 emitters append them.
 */
module Emitter {
  import opened Words
  import opened Flags
  import opened Alu
  import opened Cond
  import opened Guest
  import opened A64
  import opened A64Cond

  datatype Known<T> = Unknown | Known(v: T)

  /** The kind and the width of the tuple in CPU memory, as far as the translator knows them. */
  datatype Track = Track(kind: Known<Kind>, w: Known<Width>)

  const LOST := Track(Unknown, Unknown)

  // ---- which instructions are translated ----

  predicate WriteShape(o: Operand) {
    !o.Imm?
  }

  predicate NotBothMemory(dst: Operand, src: Operand) {
    !(dst.Mem? && src.Mem?)
  }

  predicate CountShape(src: Operand) {
    src.Imm? || src == Reg(ECX)
  }

  /** The shapes an emitter exists for. */
  predicate Emittable(i: Insn) {
    match i
    case Mov(dst, src, _) => WriteShape(dst) && NotBothMemory(dst, src)
    case AluInsn(op, dst, src, _) =>
      WriteShape(dst) && NotBothMemory(dst, src) && (CountsByRegister(op) ==> CountShape(src))
    case UnaryInsn(_, dst, _) => WriteShape(dst)
    case Setcc(_, dst) => WriteShape(dst)
    case _ => true
  }

  // ---- addresses ----

  /** base + index * scale + disp into EA, without the segment base: what LEA computes. */
  function AddressParts(m: MemRef, next: Code): Code {
    var disp := if m.disp != 0 then Emit(AluImm(ADDW, EA, EA, m.disp), next) else next;
    match (m.base, m.index)
    case (Base(b), Index(r, low, shift)) =>
      Emit(LoadReg(EA, b, W4), Emit(LoadReg(TMP, r, if low then W1 else W4), Emit(AddLsl(EA, EA, TMP, shift), disp)))
    case (Base(b), NoIndex) => Emit(LoadReg(EA, b, W4), disp)
    case (NoBase, Index(r, low, shift)) =>
      Emit(LoadReg(EA, r, if low then W1 else W4),
           if shift != 0 then Emit(AluImm(LSLW, EA, EA, shift), disp) else disp)
    case (NoBase, NoIndex) => Emit(MovImm(EA, m.disp), next)
  }

  function Address(m: MemRef, next: Code): Code {
    AddressParts(m, if m.seg == Flat then next
                    else Emit(LoadSegment(X8, m.seg), Emit(AluReg(ADDW, EA, EA, X8), next)))
  }

  /** EA on a checked address, or out of the block with EIP at the instruction. */
  function Prepare(m: MemRef, w: Width, pc: Word, next: Code): Code {
    Address(m, Emit(CheckBounds(w, pc), next))
  }

  function PrepareIfMemory(o: Operand, w: Width, pc: Word, next: Code): Code {
    if o.Mem? then Prepare(o.m, w, pc, next) else next
  }

  /** An operand whose address, if any, is already prepared. */
  function LoadPrepared(d: XReg, o: Operand, w: Width, next: Code): Code {
    match o
    case Reg(r) => Emit(LoadReg(d, r, w), next)
    case Imm(v) => Emit(MovImm(d, Lo(v, w)), next)
    case Mem(_) => Emit(LoadMem(d, w), next)
  }

  function StorePrepared(o: Operand, w: Width, s: XReg): Code {
    match o
    case Reg(r) => Emit(StoreReg(r, w, s), Nil)
    case Imm(_) => Nil
    case Mem(_) => Emit(StoreMem(w, s), Nil)
  }

  function MaskTo(d: XReg, w: Width, next: Code): Code {
    if w == W4 then next else Emit(AluImm(ANDW, d, d, Lo(-1, w)), next)
  }

  function RecordFlags(a: XReg, b: XReg, r: XReg, kind: Kind, w: Width, next: Code): Code {
    Emit(StorePair(a, b), Emit(StoreResult(r), Emit(StoreKind(kind, w), next)))
  }

  // ---- the incoming carry ----

  /** CF of the tuple in memory into CARRY, derived inline when its kind is known, else by asking x86p_flag_cf. */
  function ComputeCarry(last: Known<Kind>, next: Code): Code {
    match last
    case Known(None) => Emit(MovImm(CARRY, 0), next)
    case Known(Logic) => Emit(MovImm(CARRY, 0), next)
    case Known(Add) => CarryFrom(FR, FA, next)
    case Known(Sub) => CarryFrom(FA, FB, next)
    case Known(Explicit) => Emit(LoadFlag(CARRY, FA), Emit(AluImm(ANDW, CARRY, CARRY, 1), next))
    case Known(Inc) => Emit(LoadCarryIn(CARRY), next)
    case Known(Dec) => Emit(LoadCarryIn(CARRY), next)
    case _ => Emit(CallCf, Emit(MovReg(CARRY, X0), next))
  }

  function CarryFrom(x: FlagField, y: FlagField, next: Code): Code {
    Emit(LoadFlag(CARRY, x), Emit(LoadFlag(X8, y), Emit(CmpReg(CARRY, X8), Emit(CSet(CC, CARRY), next))))
  }

  // ---- plain ALU operations ----

  function HostOf(op: Op): HostAlu
    requires IsPlain(op)
  {
    match op
    case ADD => ADDW
    case SUB => SUBW
    case CMP => SUBW
    case OR => ORRW
    case AND => ANDW
    case TEST => ANDW
    case XOR => EORW
  }

  /** An ADD or SUB immediate, possibly as the opposite operation on its negation. */
  datatype AddSub = NoEncoding | AddSub(alu: HostAlu, imm: Word)

  function EncodeAddSub(alu: HostAlu, imm: Word): AddSub
    requires alu == ADDW || alu == SUBW
  {
    if imm > 0xFFF && Lo32(0 - imm) <= 0xFFF then AddSub(if alu == ADDW then SUBW else ADDW, Lo32(0 - imm))
    else if imm <= 0xFFF || (imm % 0x1000 == 0 && imm / 0x1000 <= 0xFFF) then AddSub(alu, imm)
    else NoEncoding
  }

  /** With the tuple dead, an ADD or SUB immediate needs no register of its own when it encodes. */
  function Folded(op: Op, src: Operand, w: Width, dead: bool): AddSub
    requires IsPlain(op)
  {
    if dead && src.Imm? && (HostOf(op) == ADDW || HostOf(op) == SUBW) then EncodeAddSub(HostOf(op), Lo(src.v, w))
    else NoEncoding
  }

  function PlainCode(op: Op, dst: Operand, src: Operand, w: Width, dead: bool, pc: Word): Code
    requires IsPlain(op)
  {
    PrepareIfMemory(dst, w, pc, PrepareIfMemory(src, w, pc, LoadPrepared(X0, dst, w,
      PlainRest(op, dst, src, w, dead))))
  }

  function PlainRest(op: Op, dst: Operand, src: Operand, w: Width, dead: bool): Code
    requires IsPlain(op)
  {
    match Folded(op, src, w, dead)
    case AddSub(alu, imm) => Emit(AluImm(alu, X2, X0, imm), PlainFinish(op, dst, w, dead))
    case NoEncoding => LoadPrepared(X1, src, w, Emit(AluReg(HostOf(op), X2, X0, X1), PlainFinish(op, dst, w, dead)))
  }

  function PlainFinish(op: Op, dst: Operand, w: Width, dead: bool): Code
    requires IsPlain(op)
  {
    var store := if Discards(op) then Nil else StorePrepared(dst, w, X2);
    MaskTo(X2, w, if dead then store else RecordFlags(X0, X1, X2, PlainKind(op), w, store))
  }

  // ---- shifts ----

  function HostShift(op: Op): HostAlu
    requires IsShiftOp(op)
  {
    match op case SHL => LSLW case SHR => LSRW case SAR => ASRW
  }

  /** X2 = X0 shifted by X1 at the width, then the tuple unless dead, then the destination. */
  function ShiftBody(op: Op, dst: Operand, w: Width, dead: bool): Code
    requires IsShiftOp(op)
  {
    var store := StorePrepared(dst, w, X2);
    var record := if dead then store else RecordFlags(X0, X1, X2, ShiftKind(op), w, store);
    var masked := if op == SHR then record else MaskTo(X2, w, record);
    var shifted := Emit(AluReg(HostShift(op), X2, X2, X1), masked);
    Emit(MovReg(X2, X0),
         if op == SAR && w != W4
         then Emit(AluImm(LSLW, X2, X2, AlignShift(w)), Emit(AluImm(ASRW, X2, X2, AlignShift(w)), shifted))
         else shifted)
  }

  function ShiftCode(op: Op, dst: Operand, src: Operand, w: Width, dead: bool, pc: Word): Code
    requires IsShiftOp(op)
  {
    PrepareIfMemory(dst, w, pc,
      match src
      case Imm(v) =>
        if Count(v) == 0 then Nil
        else LoadPrepared(X0, dst, w, Emit(MovImm(X1, Count(v)), ShiftBody(op, dst, w, dead)))
      case Reg(r) =>
        LoadPrepared(X0, dst, w, Emit(LoadReg(X1, r, W1), Emit(AluImm(ANDW, X1, X1, 0x1F),
          SkipIfZero(X1, ShiftBody(op, dst, w, dead), Nil))))
      case Mem(_) => Nil)
  }

  // ---- INC, DEC, NEG and NOT ----

  function UnaryKind(op: UnaryOp): Kind
    requires op != NOT
  {
    match op case NEG => Sub case INC => Inc case DEC => Dec
  }

  function UnaryCode(op: UnaryOp, dst: Operand, w: Width, last: Known<Kind>, dead: bool, pc: Word): Code {
    var store := StorePrepared(dst, w, X1);
    if op == NOT then
      PrepareIfMemory(dst, w, pc, LoadPrepared(X0, dst, w,
        Emit(AluImm(EORW, X0, X0, 0xFFFF_FFFF), MaskTo(X0, w, StorePrepared(dst, w, X0)))))
    else if op == NEG then
      PrepareIfMemory(dst, w, pc, LoadPrepared(X0, dst, w,
        Emit(MovImm(X1, 0), Emit(AluReg(SUBW, X1, X1, X0), MaskTo(X1, w,
          if dead then store else Emit(MovImm(X2, 0), RecordFlags(X2, X0, X1, Sub, w, store)))))))
    else
      var alu := if op == INC then ADDW else SUBW;
      var step := LoadPrepared(X0, dst, w, Emit(AluImm(alu, X1, X0, 1), MaskTo(X1, w,
        if dead then store else Emit(MovImm(X2, 1), RecordFlags(X0, X2, X1, UnaryKind(op), w, store)))));
      if dead then PrepareIfMemory(dst, w, pc, step)
      // the carry is derived before the access can fault, and stored only after
      else ComputeCarry(last, PrepareIfMemory(dst, w, pc, Emit(StoreCarryIn(CARRY), step)))
  }

  // ---- the shared ALU called for what is not inlined ----

  function HelperCode(op: Op, dst: Operand, src: Operand, w: Width, pc: Word): Code {
    PrepareIfMemory(src, w, pc, PrepareIfMemory(dst, w, pc,
      LoadPrepared(X1, dst, w, LoadPrepared(X2, src, SourceWidth(op, src, w), Emit(CallAlu(op, w),
        if Discards(op) then Nil else StorePrepared(dst, w, X0))))))
  }

  function AluCode(op: Op, dst: Operand, src: Operand, w: Width, dead: bool, pc: Word): Code {
    if IsPlain(op) then PlainCode(op, dst, src, w, dead, pc)
    else if IsShiftOp(op) then ShiftCode(op, dst, src, w, dead, pc)
    else HelperCode(op, dst, src, w, pc)
  }

  // ---- moves, LEA, SETcc ----

  function MovCode(dst: Operand, src: Operand, w: Width, pc: Word): Code {
    PrepareIfMemory(dst, w, pc, PrepareIfMemory(src, w, pc,
      match (dst, src)
      case (Mem(_), Imm(v)) => Emit(StoreMemImm(w, v), Nil)
      case (Reg(r), Imm(v)) => Emit(StoreRegImm(r, w, v), Nil)
      case _ => LoadPrepared(X0, src, w, StorePrepared(dst, w, X0))))
  }

  function LeaCode(r: RegIndex, m: MemRef): Code {
    AddressParts(m, Emit(StoreReg(r, W4, EA), Nil))
  }

  /** How the translator asks for a condition: lowered when kind and width are known, else refused. */
  function Lowered(cc: Cc, t: Track, held: FlagRegs): Lowering {
    if t.kind.Known? && t.w.Known? then Lower(cc, t.kind.v, t.w.v, held) else Refused
  }

  /** The condition as 0 or 1 in X0. */
  function ConditionValue(cc: Cc, t: Track, held: FlagRegs): Code {
    match Lowered(cc, t, held)
    case Refused => Emit(CallCond(cc), Nil)
    case Constant(v) => Emit(MovImm(X0, Num(v)), Nil)
    case Compare(code, host) => Append(code, Emit(CSet(host, X0), Nil))
  }

  /** The condition is kept in CARRY while a memory destination's address is formed. */
  function SetccStore(dst: Operand, pc: Word): Code {
    match dst
    case Mem(m) => Emit(MovReg(CARRY, X0), Prepare(m, W1, pc, Emit(StoreMem(W1, CARRY), Nil)))
    case _ => StorePrepared(dst, W1, X0)
  }

  function SetccCode(cc: Cc, dst: Operand, t: Track, held: FlagRegs, pc: Word): Code {
    Append(ConditionValue(cc, t, held), SetccStore(dst, pc))
  }

  /** A branch selects between two exits, or picks one when the condition is constant. */
  function JccCode(cc: Cc, t: Track, held: FlagRegs, target: Word, next: Word): Code {
    match Lowered(cc, t, held)
    case Refused => Emit(CallCond(cc), Emit(TstReg(X0), ExitOn(NE, target, next)))
    case Constant(v) => Exit(if v then target else next, Ended)
    case Compare(code, host) => Append(code, ExitOn(host, target, next))
  }

  // ---- one straight-line instruction ----

  function InsnCode(i: Insn, t: Track, held: FlagRegs, dead: bool, pc: Word): Code {
    match i
    case Nop => Nil
    case Mov(dst, src, w) => MovCode(dst, src, w, pc)
    case Lea(r, m) => LeaCode(r, m)
    case AluInsn(op, dst, src, w) => AluCode(op, dst, src, w, dead, pc)
    case UnaryInsn(op, dst, w) => UnaryCode(op, dst, w, t.kind, dead, pc)
    case Setcc(cc, dst) => SetccCode(cc, dst, t, held, pc)
    case Lahf => Emit(CallLahf, Nil)
    case Sahf => Emit(CallSahf, Nil)
    case _ => Nil
  }

  /** What the translator knows of the recorded tuple afterwards. An elided store leaves the old tuple in memory. */
  function TrackAfter(i: Insn, t: Track, dead: bool): Track {
    match i
    case AluInsn(op, _, src, w) =>
      if IsPlain(op) then (if dead then t else Track(Known(PlainKind(op)), Known(w)))
      else if IsShiftOp(op) then
        if !src.Imm? then LOST
        else if Count(src.v) == 0 || dead then t
        else Track(Known(ShiftKind(op)), Known(w))
      else if op == ADC || op == SBB then Track(Known(Explicit), Unknown)
      else LOST
    case UnaryInsn(op, _, w) => if op == NOT || dead then t else Track(Known(UnaryKind(op)), Known(w))
    case Sahf => Track(Known(Explicit), Unknown)
    case _ => t
  }

  /** Which host registers still hold the tuple, for the next instruction alone. */
  function HeldAfter(i: Insn, dead: bool): FlagRegs {
    match i
    case AluInsn(op, _, src, _) =>
      if dead then NOWHERE
      else if IsPlain(op) || (IsShiftOp(op) && src.Imm? && Count(src.v) != 0) then FlagRegs(In(X0), In(X1), In(X2))
      else NOWHERE
    case UnaryInsn(op, _, _) =>
      if dead || op == NOT then NOWHERE
      else if op == NEG then FlagRegs(In(X2), In(X0), In(X1))
      else FlagRegs(In(X0), In(X2), In(X1))
    case _ => NOWHERE
  }
}
