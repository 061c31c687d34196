/** What the look-ahead's three verdicts mean, for every instruction and both ways. */
module Judged {
  import opened Words
  import opened Flags
  import opened Alu
  import opened Cond
  import opened Guest
  import opened Emitter
  import opened EmitterProof
  import opened InsnProof
  import opened Translator
  import opened FlagMeaning
  import opened GuestMeaning
  import BlockProof

  predicate AgreeOnFlags(x: Step, y: Step) {
    x.Done? && y.Done? && Same(x.c.flags, y.c.flags)
  }

  predicate AgreeElsewhere(x: Step, y: Step, f: Tuple) {
    x.Done? && y.Done? && SameBody(x.c, y.c) && x.c.flags == f
  }

  /** Never faults, and leaves flags that do not depend on those it found. */
  ghost predicate Rewrites(i: Insn) {
    forall c: Cpu, f: Tuple :: AgreeOnFlags(Body(c, i), Body(c.(flags := f), i))
  }

  /** Never faults, leaves the flags alone, and does the same whatever they are. */
  ghost predicate PassesBy(i: Insn) {
    forall c: Cpu, f: Tuple :: AgreeElsewhere(Body(c, i), Body(c.(flags := f), i), c.flags)
  }

  const CLEAR: Six := Six(false, false, false, false, false, false)
  const RAISED: Six := Six(true, true, true, true, true, true)

  /** A guest with nothing mapped. */
  function AtStart(regs: Regs, s: Six): Cpu {
    Cpu(regs, Memory(0, 0, map[]), 0, 0, 0, RecordExplicit(WordOf(s)))
  }

  const ZEROS: Regs := [0, 0, 0, 0, 0, 0, 0, 0]

  lemma ExplicitFlags(s: Six)
    ensures Derive(RecordExplicit(WordOf(s))) == s && Cf(RecordExplicit(WordOf(s))) == s.cf
  {
    hide WordOf, HasCf;
    WordRoundTrip(s);
  }

  lemma NothingReadable(regs: Regs, s: Six, o: Operand, w: Width)
    ensures o.Mem? ==> !Readable(AtStart(regs, s), o, w)
  {
    hide WordOf, EffectiveAddress;
  }

  predicate TouchesMemory(i: Insn) {
    match i
    case AluInsn(_, dst, src, _) => dst.Mem? || src.Mem?
    case Mov(dst, src, _) => dst.Mem? || src.Mem?
    case UnaryInsn(_, dst, _) => dst.Mem?
    case Setcc(_, dst) => dst.Mem?
    case _ => false
  }

  lemma MemoryFaults(i: Insn)
    requires TouchesMemory(i)
    ensures Body(AtStart(ZEROS, CLEAR), i).Fault?
  {
    hide Readable, ReadOperand, WriteOperand, Binary, Unary, WordOf, Holds, AtStart;
    var c := AtStart(ZEROS, CLEAR);
    match i {
      case AluInsn(op, dst, src, w) =>
        NothingReadable(ZEROS, CLEAR, dst, w);
        NothingReadable(ZEROS, CLEAR, src, SourceWidth(op, src, w));
      case Mov(dst, src, w) =>
        NothingReadable(ZEROS, CLEAR, dst, w);
        NothingReadable(ZEROS, CLEAR, src, w);
      case UnaryInsn(_, dst, w) => NothingReadable(ZEROS, CLEAR, dst, w);
      case Setcc(_, dst) => NothingReadable(ZEROS, CLEAR, dst, W1);
      case _ =>
    }
  }

  // ---- instructions that kill ----

  /** Two guests with the same registers and different flags, after which a flag still differs. */
  predicate Distinguishes(i: Insn, regs: Regs, s: Six, t: Six) {
    var x, y := Body(AtStart(regs, s), i), Body(AtStart(regs, t), i);
    x.Done? && y.Done? ==> Derive(x.c.flags) != Derive(y.c.flags)
  }

  lemma DistinguishedIsNotRewritten(i: Insn, regs: Regs, s: Six, t: Six)
    requires Distinguishes(i, regs, s, t)
    ensures !Rewrites(i)
  {
    hide Body, WordOf, Derive;
    var c, d := AtStart(regs, s), AtStart(regs, t);
    assert d == c.(flags := d.flags);
    if Rewrites(i) {
      assert AgreeOnFlags(Body(c, i), Body(c.(flags := d.flags), i));
      SameFlags(Body(c, i).c.flags, Body(d, i).c.flags);
    }
  }

  /** The registers on which an ADC or SBB without a carry gives zero. */
  function Cancelling(op: Op, dst: Operand, src: Operand, w: Width): Regs {
    if dst.Reg? && src.Imm? then RegWrite(ZEROS, dst.r, w, if op == ADC then Lo(0 - src.v, w) else src.v) else ZEROS
  }

  lemma ZerosRead(r: RegIndex, w: Width)
    ensures RegRead(ZEROS, r, w) == 0
  {
  }

  /** The second operand of an ALU instruction that touches no memory. */
  function Second(op: Op, src: Operand, w: Width, regs: Regs): Word
    requires !src.Mem?
  {
    if src.Reg? then RegRead(regs, src.r, SourceWidth(op, src, w)) else src.v
  }

  lemma AluFlags(op: Op, dst: Operand, src: Operand, w: Width, regs: Regs, s: Six)
    requires dst.Reg? && !src.Mem?
    ensures var x := Body(AtStart(regs, s), AluInsn(op, dst, src, w));
      x.Done? && x.c.flags == Binary(op, RegRead(regs, dst.r, w), Second(op, src, w, regs), w, RecordExplicit(WordOf(s))).f
  {
    hide Binary, WordOf, RegRead, RegWrite, RecordExplicit;
  }

  lemma CarryTells(op: Op, dst: Operand, src: Operand, w: Width)
    requires (op == ADC || op == SBB) && dst.Reg? && !src.Mem?
    ensures Distinguishes(AluInsn(op, dst, src, w), Cancelling(op, dst, src, w), CLEAR, RAISED)
  {
    hide Body, Binary, WordOf, Derive, RegRead, RegWrite, Lo, Cancelling, RecordExplicit, AtStart;
    var regs := Cancelling(op, dst, src, w);
    CancellingCancels(op, dst, src, w);
    AluFlags(op, dst, src, w, regs, CLEAR);
    AluFlags(op, dst, src, w, regs, RAISED);
    CarryOneWay(op, RegRead(regs, dst.r, w), Second(op, src, w, regs), w, CLEAR);
    CarryOneWay(op, RegRead(regs, dst.r, w), Second(op, src, w, regs), w, RAISED);
  }

  lemma CancellingCancels(op: Op, dst: Operand, src: Operand, w: Width)
    requires (op == ADC || op == SBB) && dst.Reg? && !src.Mem?
    ensures var regs := Cancelling(op, dst, src, w);
      var a, b := RegRead(regs, dst.r, w), Second(op, src, w, regs);
      Lo(if op == ADC then Lo(a, w) + Lo(b, w) else Lo(a, w) - Lo(b, w), w) == 0
      && Lo(if op == ADC then Lo(a, w) + Lo(b, w) + 1 else Lo(a, w) - Lo(b, w) - 1, w) != 0
  {
    hide RegRead, RegWrite, Lo;
    if src.Imm? {
      WriteRegReads(ZEROS, dst.r, w, if op == ADC then Lo(0 - src.v, w) else src.v);
      Opposites(op, src.v, w);
    } else {
      ZerosRead(dst.r, w);
      ZerosRead(src.r, w);
      SmallLo(w);
    }
  }

  lemma SmallLo(w: Width)
    ensures Lo(0, w) == 0 && Lo(1, w) == 1 && Lo(-1, w) != 0
  {
  }

  lemma Opposites(op: Op, v: Word, w: Width)
    ensures var a := Lo(if op == ADC then Lo(0 - v, w) else v, w);
      Lo(a, w) == a && (op == ADC ==> Lo(a + Lo(v, w), w) == 0 && Lo(a + Lo(v, w) + 1, w) == 1)
      && (op == SBB ==> Lo(a - Lo(v, w), w) == 0 && Lo(a - Lo(v, w) - 1, w) != 0)
  {
    hide Lo, Modulus;
    var x: int := Lo(v, w);
    NegatedLo(v, w);
    LoRange(v, w);
    LoNear(0 - x, w);
    LoNear(x, w);
    LoNear(Lo(0 - v, w), w);
    LoNear(Lo(0 - v, w) + x, w);
    LoNear(Lo(0 - v, w) + x + 1, w);
    LoNear(0, w);
    LoNear(-1, w);
  }

  lemma NegatedLo(v: Word, w: Width)
    ensures Lo(0 - v, w) == Lo(0 - Lo(v, w), w)
  {
    match w { case W1 => case W2 => case W4 => }
  }

  lemma LoRange(v: Word, w: Width)
    ensures 0 <= Lo(v, w) < Modulus(w) && Modulus(w) >= 0x100
  {
  }

  /** The result is zero exactly without the carry. */
  lemma CarryOneWay(op: Op, a: Word, b: Word, w: Width, s: Six)
    requires op == ADC || op == SBB
    requires Lo(if op == ADC then Lo(a, w) + Lo(b, w) else Lo(a, w) - Lo(b, w), w) == 0
    requires Lo(if op == ADC then Lo(a, w) + Lo(b, w) + 1 else Lo(a, w) - Lo(b, w) - 1, w) != 0
    ensures Derive(Binary(op, a, b, w, RecordExplicit(WordOf(s))).f).zf == !s.cf
  {
    hide Lo, WordOf, Derive, Binary, RecordExplicit;
    var f := RecordExplicit(WordOf(s));
    ExplicitFlags(s);
    LoFits(a, w);
    LoFits(b, w);
    MaskedOperands(op, a, b, w, f);
    if op == ADC { AdcZero(Lo(a, w), Lo(b, w), w, f); } else { SbbZero(Lo(a, w), Lo(b, w), w, f); }
  }

  lemma AdcZero(a: Word, b: Word, w: Width, f: Tuple)
    requires Fits(a, w) && Fits(b, w)
    ensures Derive(Binary(ADC, a, b, w, f).f).zf <==> Lo(a + b + Num(Cf(f)), w) == 0
  {
    hide Lo, Derive, Binary, Cf, Signed, EvenParity, Modulus;
    AddsExactly(ADC, a, b, w, f);
  }

  lemma SbbZero(a: Word, b: Word, w: Width, f: Tuple)
    requires Fits(a, w) && Fits(b, w)
    ensures Derive(Binary(SBB, a, b, w, f).f).zf <==> Lo(a - b - Num(Cf(f)), w) == 0
  {
    hide Lo, Derive, Binary, Cf, Signed, EvenParity, Modulus;
    SubtractsExactly(SBB, a, b, w, f);
  }

  lemma MaskedOperands(op: Op, a: Word, b: Word, w: Width, f: Tuple)
    ensures Binary(op, a, b, w, f) == Binary(op, Lo(a, w), Lo(b, w), w, f)
  {
    hide Lo, Plain, Shift, Rotate, RotateThrough, Cf, AdcFlags, SbbFlags;
    LoFits(a, w);
    LoFits(b, w);
    LoOfFits(Lo(a, w), w);
    LoOfFits(Lo(b, w), w);
  }

  lemma RotatesTell(op: Op, dst: Operand, src: Operand, w: Width)
    requires op in {ROL, ROR, RCL, RCR} && dst.Reg? && !src.Mem?
    ensures Distinguishes(AluInsn(op, dst, src, w), ZEROS, CLEAR, RAISED)
  {
    hide Body, Binary, WordOf, Derive, RegRead, RecordExplicit, AtStart, Second;
    var a, b := RegRead(ZEROS, dst.r, w), Second(op, src, w, ZEROS);
    AluFlags(op, dst, src, w, ZEROS, CLEAR);
    AluFlags(op, dst, src, w, ZEROS, RAISED);
    RotateKeepsZero(op, a, b, w, CLEAR);
    RotateKeepsZero(op, a, b, w, RAISED);
  }

  lemma RotateKeepsZero(op: Op, a: Word, b: Word, w: Width, s: Six)
    requires op in {ROL, ROR, RCL, RCR}
    ensures Derive(Binary(op, a, b, w, RecordExplicit(WordOf(s))).f).zf == s.zf
  {
    hide Binary, WordOf, Derive, Lo, Bit, Msb;
    var f := RecordExplicit(WordOf(s));
    ExplicitFlags(s);
    LoFits(a, w);
    LoFits(b, w);
    MaskedOperands(op, a, b, w, f);
    if Count(Lo(b, w)) == 0 { ZeroCountKeeps(op, Lo(a, w), Lo(b, w), w, f); } else { RotateOverflow(op, Lo(a, w), Lo(b, w), w, f); }
  }

  lemma ShiftTells(op: Op, dst: Operand, src: Operand, w: Width)
    requires IsShiftOp(op) && dst.Reg? && !src.Mem? && (src.Imm? ==> Count(src.v) == 0)
    ensures Distinguishes(AluInsn(op, dst, src, w), ZEROS, CLEAR, RAISED)
  {
    hide Body, Binary, WordOf, Derive, RegRead, RecordExplicit, AtStart;
    var a, b := RegRead(ZEROS, dst.r, w), Second(op, src, w, ZEROS);
    if src.Reg? { ZerosRead(src.r, SourceWidth(op, src, w)); }
    AluFlags(op, dst, src, w, ZEROS, CLEAR);
    AluFlags(op, dst, src, w, ZEROS, RAISED);
    ShiftKeepsAll(op, a, b, w, CLEAR);
    ShiftKeepsAll(op, a, b, w, RAISED);
  }

  lemma ShiftKeepsAll(op: Op, a: Word, b: Word, w: Width, s: Six)
    requires IsShiftOp(op) && Count(b) == 0
    ensures Derive(Binary(op, a, b, w, RecordExplicit(WordOf(s))).f) == s
  {
    hide Binary, WordOf, Derive, Lo;
    var f := RecordExplicit(WordOf(s));
    ExplicitFlags(s);
    LoFits(a, w);
    CountMasked(b, w);
    MaskedOperands(op, a, b, w, f);
    ZeroCountKeeps(op, Lo(a, w), Lo(b, w), w, f);
  }

  lemma UnaryTells(op: UnaryOp, dst: Operand, w: Width)
    requires op != NEG && dst.Reg?
    ensures Distinguishes(UnaryInsn(op, dst, w), ZEROS, CLEAR, RAISED)
  {
    hide Unary, WordOf, Derive, RegRead;
    var a := RegRead(ZEROS, dst.r, w);
    ZerosRead(dst.r, w);
    UnaryKeepsOne(op, a, w, CLEAR);
    UnaryKeepsOne(op, a, w, RAISED);
  }

  lemma UnaryKeepsOne(op: UnaryOp, a: Word, w: Width, s: Six)
    requires op != NEG && a == 0
    ensures Derive(Unary(op, a, w, RecordExplicit(WordOf(s))).f).cf == s.cf
  {
    hide Lo, WordOf, Derive, SumFlags, DifferenceFlags;
    var f := RecordExplicit(WordOf(s));
    ExplicitFlags(s);
    ZeroFits(w);
    if op != NOT {
      CountsExactly(op, a, w, f);
      CfIsDerived(Unary(op, a, w, f).f);
    }
  }

  lemma ZeroFits(w: Width)
    ensures Fits(0, w)
  {
  }

  lemma CfIsDerived(f: Tuple)
    ensures Derive(f).cf == Cf(f)
  {
    hide Below, ShiftOut, HalfCarry, EvenParity, IsZero, Msb, AddOverflow, SubOverflow, IsMostNegative;
  }

  lemma OthersTell(i: Insn)
    requires !i.AluInsn? && !i.UnaryInsn? && !TouchesMemory(i)
    ensures Distinguishes(i, ZEROS, CLEAR, RAISED)
  {
    hide WordOf, Derive, RegRead, RegWrite, EffectiveAddress, Holds, LahfAx;
    ExplicitFlags(CLEAR);
    ExplicitFlags(RAISED);
    if i.Sahf? {
      SahfLeaves(AtStart(ZEROS, CLEAR), 0);
      SahfLeaves(AtStart(ZEROS, RAISED), 0);
    }
  }

  /** The scan calls an instruction a killer exactly when it rewrites every flag: for each instruction the gate lets through. */
  lemma KillsExactly(i: Insn)
    requires Emittable(i)
    ensures Judge(i) == Kills <==> Rewrites(i)
  {
    if Judge(i) == Kills {
      KillerRewrites(i);
    } else if TouchesMemory(i) {
      hide Body;
      MemoryFaults(i);
      var c := AtStart(ZEROS, CLEAR);
      assert !AgreeOnFlags(Body(c, i), Body(c.(flags := c.flags), i));
    } else {
      hide Distinguishes, Rewrites, Body;
      match i {
        case AluInsn(op, dst, src, w) =>
          if IsShiftOp(op) {
            ShiftTells(op, dst, src, w);
            DistinguishedIsNotRewritten(i, ZEROS, CLEAR, RAISED);
          } else if op == ADC || op == SBB {
            CarryTells(op, dst, src, w);
            DistinguishedIsNotRewritten(i, Cancelling(op, dst, src, w), CLEAR, RAISED);
          } else {
            RotatesTell(op, dst, src, w);
            DistinguishedIsNotRewritten(i, ZEROS, CLEAR, RAISED);
          }
        case UnaryInsn(op, dst, w) =>
          UnaryTells(op, dst, w);
          DistinguishedIsNotRewritten(i, ZEROS, CLEAR, RAISED);
        case _ =>
          OthersTell(i);
          DistinguishedIsNotRewritten(i, ZEROS, CLEAR, RAISED);
      }
    }
  }

  lemma KillerRewrites(i: Insn)
    requires Judge(i) == Kills
    ensures Rewrites(i)
  {
    hide Body, Judge, Same;
    forall c: Cpu, f: Tuple ensures AgreeOnFlags(Body(c, i), Body(c.(flags := f), i)) {
      BlockProof.SkippedCongruent(c, c.(flags := f), i);
    }
  }

  // ---- instructions that are passed over ----

  /** Two guests that differ in flags and end with different registers or a flag touched. */
  predicate Notices(i: Insn, s: Six, t: Six) {
    var c, d := AtStart(ZEROS, s), AtStart(ZEROS, t);
    var x, y := Body(c, i), Body(d, i);
    x.Done? && y.Done? ==> x.c.regs != y.c.regs || x.c.flags != c.flags
  }

  lemma NoticingDoesNotPass(i: Insn, s: Six, t: Six)
    requires Notices(i, s, t)
    ensures !PassesBy(i)
  {
    hide Body, WordOf;
    var c, d := AtStart(ZEROS, s), AtStart(ZEROS, t);
    assert d == c.(flags := d.flags);
    assert !AgreeElsewhere(Body(c, i), Body(c.(flags := d.flags), i), c.flags);
  }

  lemma UnaryNotices(op: UnaryOp, dst: Operand, w: Width)
    requires op != NOT && dst.Reg?
    ensures Notices(UnaryInsn(op, dst, w), CLEAR, CLEAR)
  {
    hide WordOf, Derive, Cf, Lo, RegRead, RegWrite;
  }

  /** Flags on which a condition does not hold as it does when all are clear. */
  function Other(cc: Cc): Six {
    if cc == O || cc == NO then RAISED else RAISED.(of := false)
  }

  lemma SetccNotices(cc: Cc, r: RegIndex)
    ensures Notices(Setcc(cc, Reg(r)), CLEAR, Other(cc))
  {
    hide WordOf, Derive, RegRead, RegWrite;
    ConditionOf(cc, CLEAR);
    ConditionOf(cc, Other(cc));
    WriteRegReads(ZEROS, r, W1, 0);
    WriteRegReads(ZEROS, r, W1, 1);
  }

  lemma ConditionOf(cc: Cc, s: Six)
    ensures Holds(cc, RecordExplicit(WordOf(s))) == Test(cc, s)
  {
    hide WordOf, SixOf, Test;
    WordRoundTrip(s);
  }

  lemma LahfNotices()
    ensures Notices(Lahf, CLEAR, RAISED)
  {
    hide RegRead, RegWrite, LahfAx;
    LahfLeaves(AtStart(ZEROS, CLEAR), 0);
    LahfLeaves(AtStart(ZEROS, RAISED), 0);
    ExplicitFlags(CLEAR);
    ExplicitFlags(RAISED);
  }

  lemma SahfNotices()
    ensures Notices(Sahf, RAISED, CLEAR)
  {
    hide WordOf, Derive;
    SahfLeaves(AtStart(ZEROS, RAISED), 0);
    ExplicitFlags(RAISED);
    ZerosRead(4, W1);
  }

  /** It passes over an instruction exactly when that can neither fault nor notice the flags: ALU operations apart, which it never passes over. */
  lemma PassesExactly(i: Insn)
    requires Emittable(i) && StraightLine(i)
    ensures Judge(i) == Transparent <==> !i.AluInsn? && PassesBy(i)
  {
    if Judge(i) == Transparent {
      TransparentPasses(i);
    } else if !i.AluInsn? {
      if TouchesMemory(i) {
        hide Body;
        MemoryFaults(i);
        var c := AtStart(ZEROS, CLEAR);
        assert !AgreeElsewhere(Body(c, i), Body(c.(flags := c.flags), i), c.flags);
      } else {
        hide Notices, PassesBy, Body;
        match i {
          case UnaryInsn(op, dst, w) =>
            UnaryNotices(op, dst, w);
            NoticingDoesNotPass(i, CLEAR, CLEAR);
          case Setcc(cc, dst) =>
            SetccNotices(cc, dst.r);
            NoticingDoesNotPass(i, CLEAR, Other(cc));
          case Lahf =>
            LahfNotices();
            NoticingDoesNotPass(i, CLEAR, RAISED);
          case Sahf =>
            SahfNotices();
            NoticingDoesNotPass(i, RAISED, CLEAR);
          case _ =>
        }
      }
    }
  }

  lemma TransparentPasses(i: Insn)
    requires Judge(i) == Transparent
    ensures PassesBy(i)
  {
    hide Body, Judge;
    forall c: Cpu, f: Tuple ensures AgreeElsewhere(Body(c, i), Body(c.(flags := f), i), c.flags) {
      BlockProof.SkippedCongruent(c, c.(flags := f), i);
      PassedKeepsFlags(c, i);
    }
  }

  lemma PassedKeepsFlags(c: Cpu, i: Insn)
    requires Judge(i) == Transparent
    ensures Body(c, i).Done? ==> Body(c, i).c.flags == c.flags
  {
    hide ReadOperand, EffectiveAddress, RegWrite;
  }
}
